/**
 The parser does not look at what stands behind the value it returns: blanking out bytes behind it
 changes nothing.
 */
module ParseLocality {
  import opened AssocLists
  import opened Bytes
  import opened Comments
  import opened JsonText
  import opened JsonTrees
  import opened Options
  import opened ParserSteps
  import opened StringLaws
  import opened Strings

  /** `s'` is `s` with some bytes from `next` on blanked out, but the byte at `next` only if it is a slash. */
  ghost predicate BlankedBehind(s: seq<byte>, s': seq<byte>, next: nat) {
    && Terminated(s) && Terminated(s') && next < |s|
    && OnlyBlanks(s, s', next)
    && (s[next] != SLASH ==> s'[next] == s[next])
  }

  /** A byte at which the parser calls `strtod`. */
  predicate StartsNumber(c: byte) {
    c == '-' as int || IsDigit(c)
  }

  /** Where the parser calls `strtod`, blanking out the bytes behind the number that it read does not change what it
      reads, and no number has a quote, a backslash or a slash in it. */
  ghost predicate OrdinaryStrtod(lib: Libc) {
    forall t: seq<byte> :: Terminated(t) && StartsNumber(t[0]) && lib.strtod(t).value.Some? ==> OrdinaryRead(lib, t)
  }

  ghost predicate OrdinaryRead(lib: Libc, t: seq<byte>) {
    var n := lib.strtod(t).length;
    && n <= |t|
    && (forall k :: 0 <= k < n ==> t[k] != 0 && t[k] != QUOTE && t[k] != BACKSLASH && t[k] != SLASH)
    && forall t': seq<byte> :: Terminated(t') && OnlyBlanks(t, t', if n == 0 then 1 else n)
              ==> lib.strtod(t') == lib.strtod(t)
  }

  lemma BehindEarlier(s: seq<byte>, s': seq<byte>, next: nat, k: nat)
    requires BlankedBehind(s, s', next) && k < next
    ensures BlankedBehind(s, s', k) && s'[k] == s[k]
  {
  }

  lemma {:induction false} SkipWsLocal(s: seq<byte>, s': seq<byte>, i: nat, k: nat)
    requires BlankedBehind(s, s', k) && s[k] == s'[k] && i <= k && SkipWs(s, i) == k
    ensures SkipWs(s', i) == k
    decreases k - i
  {
    if i < k {
      SkipWsLocal(s, s', i + 1, k);
    }
  }

  // ----- strings -----

  lemma {:induction false} SkipBodyLocal(s: seq<byte>, s': seq<byte>, i: nat, next: nat)
    requires BlankedBehind(s, s', next) && i < |s| && SkipBody(s, i) == Some(next)
    ensures SkipBody(s', i) == Some(next)
    decreases next - i
  {
    if s[i] == BACKSLASH {
      SkipBodyLocal(s, s', i + 2, next);
    } else if s[i] != QUOTE {
      SkipBodyLocal(s, s', i + 1, next);
    }
  }

  lemma Hex4Local(s: seq<byte>, s': seq<byte>, i: nat)
    requires Terminated(s) && Terminated(s') && i < |s| == |s'| && Hex4(s, i).Some?
    requires forall k :: i <= k < i + 4 ==> s'[k] == s[k]
    ensures Hex4(s', i) == Hex4(s, i)
  {
  }

  lemma Utf16Local(s: seq<byte>, s': seq<byte>, i: nat, next: nat)
    requires Terminated(s) && Terminated(s') && i < |s| == |s'| && s[i] == 'u' as int
    requires ParseUtf16(s, i).Some? && ParseUtf16(s, i).value.next == next
    requires forall k :: i <= k < next ==> s'[k] == s[k]
    ensures ParseUtf16(s', i) == ParseUtf16(s, i)
  {
    var first := Hex4(s, i + 1);
    Hex4Local(s, s', i + 1);
    if next == i + 11 {
      var trail := Hex4(s, i + 7).value;
      Hex4Local(s, s', i + 7);
      PairParses(s, i, first.value, trail);
      PairParses(s', i, first.value, trail);
    }
  }

  lemma {:induction false} ProcessLocal(s: seq<byte>, s': seq<byte>, i: nat, end: nat)
    requires BlankedBehind(s, s', end + 1) && i <= end && SkipBody(s, i) == Some(end + 1) && Process(s, i, end).Some?
    ensures Process(s', i, end) == Process(s, i, end)
    decreases |s| - i
  {
    if i < end {
      assert s[i] != 0;
      var one := DecodeOne(s, i).value;
      TurnStaysInside(s, i, end, one.next);
      if s[i] == BACKSLASH && s[i + 1] == 'u' as int {
        Utf16Local(s, s', i + 1, one.next);
      }
      assert DecodeOne(s', i) == DecodeOne(s, i);
      ProcessLocal(s, s', one.next, end);
    }
  }

  lemma BodyLocal(s: seq<byte>, s': seq<byte>, start: nat, end: nat)
    requires start < |s| && BlankedBehind(s, s', end + 1) && SkipBody(s, start) == Some(end + 1)
    requires start <= end && Process(s, start, end).Some?
    ensures SkipBody(s', start) == Some(end + 1) && Process(s', start, end) == Process(s, start, end)
  {
    SkipBodyLocal(s, s', start, end + 1);
    ProcessLocal(s, s', start, end);
  }

  lemma QuotedLocal(s: seq<byte>, s': seq<byte>, i: nat, next: nat)
    requires i < |s| && BlankedBehind(s, s', next) && GetQuoted(s, i).Some? && GetQuoted(s, i).value.next == next
    ensures GetQuoted(s', i) == GetQuoted(s, i)
  {
    var start, end, bytes := QuotedEnd(s, i);
    BodyLocal(s, s', start, end);
    QuotedIs(s', i, start, end, bytes);
  }

  // ----- values -----

  lemma StartsWithLocal(s: seq<byte>, s': seq<byte>, i: nat, token: seq<byte>, next: nat)
    requires BlankedBehind(s, s', next) && i + |token| <= next && i < |s|
    ensures StartsWith(s', i, token) == StartsWith(s, i, token)
  {
    assert s[i..i + |token|] == s'[i..i + |token|];
  }

  lemma NumberLocal(lib: Libc, s: seq<byte>, s': seq<byte>, i: nat, next: nat)
    requires OrdinaryStrtod(lib) && BlankedBehind(s, s', next) && i < |s| && s'[i] == s[i] && StartsNumber(s[i])
    requires ParseNumber(lib, s, i).Some? && ParseNumber(lib, s, i).value.next == next
    ensures ParseNumber(lib, s', i) == ParseNumber(lib, s, i)
  {
    var t, t' := s[i..], s'[i..];
    assert Terminated(t) && Terminated(t');
    assert OrdinaryRead(lib, t);
    assert s[i..next] == s'[i..next];
    assert OnlyBlanks(t, t', if next == i then 1 else next - i);
  }

  lemma AfterLocal(s: seq<byte>, s': seq<byte>, i: nat, close: byte, next: nat)
    requires BlankedBehind(s, s', next) && i < |s| && close != 0 && close != COMMA
    requires match AfterElement(s, i, close)
             case Broken => false
             case Closed(end) => end <= next
             case More(k) => k < next
    ensures AfterElement(s', i, close) == AfterElement(s, i, close)
  {
    var j := SkipWs(s, i);
    if j < next {
      BehindEarlier(s, s', next, j);
      SkipWsLocal(s, s', i, j);
      if s[j] == COMMA {
        var k := SkipWs(s, j + 1);
        BehindEarlier(s, s', next, k);
        SkipWsLocal(s, s', j + 1, k);
      }
    }
  }

  lemma KeyLocal(s: seq<byte>, s': seq<byte>, i: nat, next: nat)
    requires BlankedBehind(s, s', next) && i < |s| && ParseKey(s, i).Some? && ParseKey(s, i).value.next <= next
    ensures ParseKey(s', i) == ParseKey(s, i)
  {
    var q := GetQuoted(s, i).value.next;
    var j := SkipWs(s, q);
    BehindEarlier(s, s', next, q);
    QuotedLocal(s, s', i, q);
    BehindEarlier(s, s', next, j);
    SkipWsLocal(s, s', q, j);
  }

  /** The value at `j`, when it is no list. */
  lemma ScalarLocal(lib: Libc, s: seq<byte>, s': seq<byte>, j: nat, nesting: nat, next: nat)
    requires OrdinaryStrtod(lib) && BlankedBehind(s, s', next) && j < |s| && !IsSpace(s[j]) && s'[j] == s[j]
    requires s[j] != OPEN_BRACE && s[j] != OPEN_BRACKET
    requires ParseValue(lib, s, j, nesting).Some? && ParseValue(lib, s, j, nesting).value.next == next
    ensures ParseValue(lib, s', j, nesting) == ParseValue(lib, s, j, nesting)
  {
    ScalarCases(lib, s, j, nesting);
    if s[j] == QUOTE {
      QuotedLocal(s, s', j, next);
    } else if s[j] == '-' as int || IsDigit(s[j]) {
      NumberLocal(lib, s, s', j, next);
    } else if s[j] == 'n' as int {
      StartsWithLocal(s, s', j, NullToken(), next);
    } else {
      WordLocal(s, s', j, next);
    }
    ScalarCases(lib, s', j, nesting);
  }

  lemma WordLocal(s: seq<byte>, s': seq<byte>, j: nat, next: nat)
    requires BlankedBehind(s, s', next) && j < |s| && s'[j] == s[j]
    requires var t := ParseToken(s, j, TrueToken(), Boolean(true));
             var r := if t.Some? then t else ParseToken(s, j, FalseToken(), Boolean(false));
             r.Some? && r.value.next == next
    ensures ParseToken(s', j, TrueToken(), Boolean(true)) == ParseToken(s, j, TrueToken(), Boolean(true))
    ensures ParseToken(s, j, TrueToken(), Boolean(true)).None? ==>
              ParseToken(s', j, FalseToken(), Boolean(false)) == ParseToken(s, j, FalseToken(), Boolean(false))
  {
    StartsWithFirst(s, j, TrueToken());
    StartsWithFirst(s', j, TrueToken());
    StartsWithFirst(s, j, FalseToken());
    if StartsWith(s, j, TrueToken()) {
      StartsWithLocal(s, s', j, TrueToken(), next);
    } else {
      StartsWithLocal(s, s', j, FalseToken(), next);
    }
  }

  /** The value a text was parsed to is still there after bytes behind it were blanked out. */
  lemma {:induction false} ValueLocal(lib: Libc, s: seq<byte>, s': seq<byte>, i: nat, nesting: nat, next: nat)
    requires OrdinaryStrtod(lib) && BlankedBehind(s, s', next) && i < |s|
    requires ParseValue(lib, s, i, nesting).Some? && ParseValue(lib, s, i, nesting).value.next == next
    ensures ParseValue(lib, s', i, nesting) == ParseValue(lib, s, i, nesting)
    decreases |s| - i, 2
  {
    var j := SkipWs(s, i);
    FirstByteKept(lib, s, s', i, j, nesting, next);
    ValueAfterWs(lib, s, i, j, nesting);
    ValueAfterWs(lib, s', i, j, nesting);
    if s[j] == OPEN_BRACE {
      ObjectLocal(lib, s, s', j, nesting, next);
    } else if s[j] == OPEN_BRACKET {
      ArrayLocal(lib, s, s', j, nesting, next);
    } else {
      ScalarLocal(lib, s, s', j, nesting, next);
    }
  }

  lemma FirstByteKept(lib: Libc, s: seq<byte>, s': seq<byte>, i: nat, j: nat, nesting: nat, next: nat)
    requires BlankedBehind(s, s', next) && i < |s| && j == SkipWs(s, i)
    requires ParseValue(lib, s, i, nesting).Some? && ParseValue(lib, s, i, nesting).value.next == next
    ensures s'[j] == s[j] && SkipWs(s', i) == j && SkipWs(s, j) == j && SkipWs(s', j) == j
  {
    assert s[j] != SLASH;
    if j < next {
      BehindEarlier(s, s', next, j);
    }
    SkipWsLocal(s, s', i, j);
  }

  lemma {:induction false} ArrayLocal(lib: Libc, s: seq<byte>, s': seq<byte>, j: nat, nesting: nat, next: nat)
    requires OrdinaryStrtod(lib) && BlankedBehind(s, s', next) && j < |s| && s[j] == s'[j] == OPEN_BRACKET
    requires ParseValue(lib, s, j, nesting).Some? && ParseValue(lib, s, j, nesting).value.next == next
    ensures ParseValue(lib, s', j, nesting) == ParseValue(lib, s, j, nesting)
    decreases |s| - j, 1
  {
    var k := SkipWs(s, j + 1);
    ArrayCase(lib, s, j, k, nesting);
    BehindEarlier(s, s', next, k);
    SkipWsLocal(s, s', j + 1, k);
    ArrayCase(lib, s', j, k, nesting);
    if s[k] != CLOSE_BRACKET {
      ItemsLocal(lib, s, s', k, nesting + 1, [], next);
    }
  }

  lemma {:induction false} ObjectLocal(lib: Libc, s: seq<byte>, s': seq<byte>, j: nat, nesting: nat, next: nat)
    requires OrdinaryStrtod(lib) && BlankedBehind(s, s', next) && j < |s| && s[j] == s'[j] == OPEN_BRACE
    requires ParseValue(lib, s, j, nesting).Some? && ParseValue(lib, s, j, nesting).value.next == next
    ensures ParseValue(lib, s', j, nesting) == ParseValue(lib, s, j, nesting)
    decreases |s| - j, 1
  {
    var k := SkipWs(s, j + 1);
    ObjectCase(lib, s, j, k, nesting);
    BehindEarlier(s, s', next, k);
    SkipWsLocal(s, s', j + 1, k);
    ObjectCase(lib, s', j, k, nesting);
    if s[k] != CLOSE_BRACE {
      MembersLocal(lib, s, s', k, nesting + 1, [], next);
    }
  }

  lemma {:induction false} ItemsLocal(lib: Libc, s: seq<byte>, s': seq<byte>, i: nat, nesting: nat, acc: seq<Json>,
          next: nat)
    requires OrdinaryStrtod(lib) && BlankedBehind(s, s', next) && i < |s|
    requires ParseItems(lib, s, i, nesting, acc).Some? && ParseItems(lib, s, i, nesting, acc).value.next == next
    ensures ParseItems(lib, s', i, nesting, acc) == ParseItems(lib, s, i, nesting, acc)
    decreases |s| - i, 3
  {
    var v := ParseValue(lib, s, i, nesting).value;
    BehindEarlier(s, s', next, v.next);
    BehindEarlier(s, s', next, i);
    ValueLocal(lib, s, s', i, nesting, v.next);
    AfterLocal(s, s', v.next, CLOSE_BRACKET, next);
    match AfterElement(s, v.next, CLOSE_BRACKET)
    case More(k) => ItemsLocal(lib, s, s', k, nesting, acc + [v.value], next);
    case _ =>
  }

  lemma {:induction false} MembersLocal(lib: Libc, s: seq<byte>, s': seq<byte>, i: nat, nesting: nat,
          acc: seq<Member<Json>>, next: nat)
    requires OrdinaryStrtod(lib) && BlankedBehind(s, s', next) && i < |s|
    requires ParseMembers(lib, s, i, nesting, acc).Some? && ParseMembers(lib, s, i, nesting, acc).value.next == next
    ensures ParseMembers(lib, s', i, nesting, acc) == ParseMembers(lib, s, i, nesting, acc)
    decreases |s| - i, 3
  {
    var m := ParseMember(lib, s, i, nesting).value;
    BehindEarlier(s, s', next, m.next);
    BehindEarlier(s, s', next, i);
    MemberLocal(lib, s, s', i, nesting, m.next);
    AfterLocal(s, s', m.next, CLOSE_BRACE, next);
    match AfterElement(s, m.next, CLOSE_BRACE)
    case More(k) => MembersLocal(lib, s, s', k, nesting, acc + [m.member], next);
    case _ =>
  }

  lemma {:induction false} MemberLocal(lib: Libc, s: seq<byte>, s': seq<byte>, i: nat, nesting: nat, next: nat)
    requires OrdinaryStrtod(lib) && BlankedBehind(s, s', next) && i < |s|
    requires ParseMember(lib, s, i, nesting).Some? && ParseMember(lib, s, i, nesting).value.next == next
    ensures ParseMember(lib, s', i, nesting) == ParseMember(lib, s, i, nesting)
    decreases |s| - i, 2
  {
    KeyLocal(s, s', i, next);
    ValueLocal(lib, s, s', ParseKey(s, i).value.next, nesting, next);
  }
}
