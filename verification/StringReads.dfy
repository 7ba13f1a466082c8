/**
 Which bytes of the text unescaping reads. `parse_utf16_hex` looks at four bytes before it checks
 any of them (include/parson.c:309-323), so a `\u` escape cut short by the closing quote makes it
 look past the quote, though never past the terminating NUL.
 */
module StringReads {
  import opened Bytes
  import opened Options
  import opened Strings

  /** One past the last byte that the four NUL tests of `Hex4` read. */
  ghost function HexReadEnd(s: seq<byte>, i: nat): nat
    requires Terminated(s) && i < |s|
  {
    if s[i] == 0 then i + 1
    else if s[i + 1] == 0 then i + 2
    else if s[i + 2] == 0 then i + 3
    else i + 4
  }

  /** One past the last byte that one turn of the decoding loop reads. */
  ghost function TurnReadEnd(s: seq<byte>, i: nat): nat
    requires Terminated(s) && i < |s| && s[i] != 0
  {
    if s[i] != BACKSLASH then i + 1
    else if s[i + 1] != 'u' as int then i + 2
    else if Hex4(s, i + 2).None? || !IsLead(Hex4(s, i + 2).value) then HexReadEnd(s, i + 2)
    else if s[i + 6] != BACKSLASH then i + 7
    else if s[i + 7] != 'u' as int then i + 8
    else HexReadEnd(s, i + 8)
  }

  /** One past the last byte that unescaping from `i` reads. */
  ghost function ReadEnd(s: seq<byte>, i: nat, end: nat): nat
    requires Terminated(s) && i < |s|
    decreases |s| - i
  {
    if s[i] == 0 || i >= end then i + 1
    else
      var one := DecodeOne(s, i);
      var rest := if one.None? then 0 else ReadEnd(s, one.value.next, end);
      if rest > TurnReadEnd(s, i) then rest else TurnReadEnd(s, i)
  }

  lemma TurnReadsInBounds(s: seq<byte>, i: nat)
    requires Terminated(s) && i < |s| && s[i] != 0
    ensures i < TurnReadEnd(s, i) <= |s|
    ensures forall k :: i <= k < TurnReadEnd(s, i) - 1 ==> s[k] != 0
    ensures DecodeOne(s, i).Some? ==> forall k :: i <= k < DecodeOne(s, i).value.next ==> s[k] != 0
  {
  }

  /** No byte after the first NUL is ever read. */
  lemma {:induction false} NeverPastNul(s: seq<byte>, i: nat, end: nat)
    requires Terminated(s) && i < |s|
    ensures i < ReadEnd(s, i, end) <= |s|
    ensures forall k :: i <= k < ReadEnd(s, i, end) - 1 ==> s[k] != 0
    decreases |s| - i
  {
    if s[i] != 0 && i < end {
      TurnReadsInBounds(s, i);
      if DecodeOne(s, i).Some? {
        NeverPastNul(s, DecodeOne(s, i).value.next, end);
      }
    }
  }

  /** A `\u` stands at `k` with at most two bytes between it and the closing quote at `end`. */
  ghost predicate CutEscape(s: seq<byte>, k: nat, end: nat)
    requires Terminated(s) && end < |s|
  {
    k + 2 <= end <= k + 4 && s[k] == BACKSLASH && s[k + 1] == 'u' as int
  }

  /** Everything from `i` up to `k` decodes. */
  ghost predicate DecodesUpTo(s: seq<byte>, i: nat, k: nat)
    requires Terminated(s) && i < |s|
  {
    Process(s, i, k).Some? && Process(s, i, k).value.next == k
  }

  /** Everything before `k` decodes, or all but a lead surrogate that ends at `k`. */
  ghost predicate Reaches(s: seq<byte>, i: nat, k: nat)
    requires Terminated(s) && i < |s|
  {
    || DecodesUpTo(s, i, k)
    || (i + 6 <= k < |s| && HexFollows(s, k - 6) && IsLead(Hex4(s, k - 4).value) && DecodesUpTo(s, i, k - 6))
  }

  lemma ReachesThrough(s: seq<byte>, i: nat, k: nat)
    requires Terminated(s) && i < k < |s| && s[i] != 0 && DecodeOne(s, i).Some?
    ensures DecodesUpTo(s, i, k) <==> DecodesUpTo(s, DecodeOne(s, i).value.next, k)
  {
  }

  lemma NoNulInside(s: seq<byte>, i: nat, end: nat)
    requires Terminated(s) && i <= end < |s| && SkipBody(s, i) == Some(end + 1)
    ensures forall k :: i <= k <= end ==> s[k] != 0
    decreases |s| - i
  {
    if s[i] == BACKSLASH {
      NoNulInside(s, i + 2, end);
    } else if s[i] != QUOTE {
      NoNulInside(s, i + 1, end);
    }
  }

  /** The one turn that reads past the closing quote is at a cut escape. */
  lemma TurnOverreads(s: seq<byte>, i: nat, end: nat)
    requires Terminated(s) && i < end < |s| && SkipBody(s, i) == Some(end + 1)
    ensures s[i] != 0
    ensures TurnReadEnd(s, i) > end + 1 <==>
            CutEscape(s, i, end) || (HexFollows(s, i) && IsLead(Hex4(s, i + 2).value) && CutEscape(s, i + 6, end))
  {
    NoNulInside(s, i, end);
    if HexFollows(s, i) {
      HexDelimited(s, i, end);
    }
    assert s[end] == QUOTE;
  }

  /** Unescaping reads past the closing quote exactly when it gets as far as a cut escape. */
  lemma {:induction false} OverreadsExactly(s: seq<byte>, i: nat, end: nat)
    requires Terminated(s) && i <= end < |s| && SkipBody(s, i) == Some(end + 1)
    ensures ReadEnd(s, i, end) > end + 1 <==> exists k: nat :: k >= i && CutEscape(s, k, end) && Reaches(s, i, k)
    decreases |s| - i
  {
    if i < end {
      TurnOverreads(s, i, end);
      if TurnReadEnd(s, i) > end + 1 {
        assert DecodesUpTo(s, i, i);
        if CutEscape(s, i, end) {
          assert Reaches(s, i, i);
        } else {
          assert CutEscape(s, i + 6, end) && Reaches(s, i, i + 6);
        }
      } else if DecodeOne(s, i).Some? {
        var next := DecodeOne(s, i).value.next;
        TurnStaysInside(s, i, end, next);
        OverreadsExactly(s, next, end);
        ReachesOver(s, i, next, end);
      } else {
        NothingReached(s, i, end);
      }
    }
  }

  /**
   * A caller can tell from the bytes alone: without a `\u` that has at most two bytes before the closing quote, nothing
   * behind the quote is read.
   */
  lemma NoCutNoOverread(s: seq<byte>, i: nat, end: nat)
    requires Terminated(s) && i <= end < |s| && SkipBody(s, i) == Some(end + 1)
    requires forall k: nat :: end - 4 <= k <= end - 2 && i <= k ==> !(s[k] == BACKSLASH && s[k + 1] == 'u' as int)
    ensures ReadEnd(s, i, end) <= end + 1
  {
    OverreadsExactly(s, i, end);
  }

  lemma ReachesOver(s: seq<byte>, i: nat, next: nat, end: nat)
    requires Terminated(s) && i < next <= end < |s| && s[i] != 0
    requires DecodeOne(s, i).Some? && next == DecodeOne(s, i).value.next
    requires !CutEscape(s, i, end) && !(HexFollows(s, i) && IsLead(Hex4(s, i + 2).value) && CutEscape(s, i + 6, end))
    ensures (exists k: nat :: k >= i && CutEscape(s, k, end) && Reaches(s, i, k)) <==>
            (exists k: nat :: k >= next && CutEscape(s, k, end) && Reaches(s, next, k))
  {
    if k: nat :| k >= i && CutEscape(s, k, end) && Reaches(s, i, k) {
      ReachesNext(s, i, next, k);
    }
    if k: nat :| k >= next && CutEscape(s, k, end) && Reaches(s, next, k) {
      ReachesNext(s, i, next, k);
    }
  }

  lemma ReachesNext(s: seq<byte>, i: nat, next: nat, k: nat)
    requires Terminated(s) && i < next < |s| && s[i] != 0 && i < k < |s|
    requires DecodeOne(s, i).Some? && next == DecodeOne(s, i).value.next
    requires !(HexFollows(s, i) && IsLead(Hex4(s, i + 2).value) && k == i + 6)
    ensures k >= next && Reaches(s, next, k) <==> Reaches(s, i, k)
  {
    ReachesThrough(s, i, k);
    if i < k - 6 {
      ReachesThrough(s, i, k - 6);
    }
    EndsAtOrAfter(s, next, k);
    if k >= 6 {
      EndsAtOrAfter(s, next, k - 6);
    }
  }

  lemma {:induction false} EndsAtOrAfter(s: seq<byte>, i: nat, end: nat)
    requires Terminated(s) && i < |s|
    ensures Process(s, i, end).Some? ==> Process(s, i, end).value.next >= i
    decreases |s| - i
  {
    if s[i] != 0 && i < end && DecodeOne(s, i).Some? {
      EndsAtOrAfter(s, DecodeOne(s, i).value.next, end);
    }
  }

  lemma NothingReached(s: seq<byte>, i: nat, end: nat)
    requires Terminated(s) && i < end < |s| && s[i] != 0 && DecodeOne(s, i).None?
    requires !CutEscape(s, i, end) && !(HexFollows(s, i) && IsLead(Hex4(s, i + 2).value) && CutEscape(s, i + 6, end))
    ensures !exists k: nat :: k >= i && CutEscape(s, k, end) && Reaches(s, i, k)
  {
    forall k: nat | k >= i && CutEscape(s, k, end) ensures !Reaches(s, i, k) {
      assert k > i;
      assert Process(s, i, k).None?;
    }
  }

  /** "\u" and the closing quote: the two bytes after the quote are looked at. */
  lemma OverreadExample()
    ensures var s: seq<byte> := [BACKSLASH, 'u' as int, QUOTE, ',' as int, '1' as int, 0];
            Terminated(s) && SkipBody(s, 0) == Some(3) && ReadEnd(s, 0, 2) == 6
  {
    var s: seq<byte> := [BACKSLASH, 'u' as int, QUOTE, ',' as int, '1' as int, 0];
    assert SkipBody(s, 2) == Some(3);
    assert s[2] == QUOTE && s[5] == 0;
    assert HexReadEnd(s, 2) == 6;
  }
}
