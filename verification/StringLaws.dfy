/** What escaping and unescaping promise together. */
module StringLaws {
  import opened Bytes
  import opened Options
  import opened Strings
  import opened Utf8

  lemma HexDigitValue(d: nat)
    requires d < 16
    ensures HexValue(HexDigit(d)) == d && HexDigit(d) != 0
  {
  }

  /** One escaped byte is read back by one turn of the decoder, and the quote scan steps over it. */
  lemma EscapeByteReads(s: seq<byte>, i: nat, next: nat, c: byte, escapeSlashes: bool)
    requires Terminated(s) && Has(s, i, EscapeByte(c, escapeSlashes))
    requires next == i + |EscapeByte(c, escapeSlashes)| < |s|
    ensures s[i] != 0
    ensures DecodeOne(s, i) == Some(Decoded([c], next))
    ensures SkipBody(s, i) == SkipBody(s, next)
  {
    var e := EscapeByte(c, escapeSlashes);
    HasAt(s, i, e, 0);
    if |e| == 2 {
      HasAt(s, i, e, 1);
    } else if |e| == 6 {
      SixAt(s, i, e);
      ControlEscapeReads(s, i, c);
    }
  }

  lemma SixAt(s: seq<byte>, i: nat, e: seq<byte>)
    requires Has(s, i, e) && |e| == 6
    ensures s[i + 1] == e[1] && s[i + 2] == e[2] && s[i + 3] == e[3] && s[i + 4] == e[4] && s[i + 5] == e[5]
  {
    HasAt(s, i, e, 1);
    HasAt(s, i, e, 2);
    HasAt(s, i, e, 3);
    HasAt(s, i, e, 4);
    HasAt(s, i, e, 5);
  }

  lemma ControlEscapeReads(s: seq<byte>, i: nat, c: byte)
    requires Terminated(s) && i + 6 < |s| && c < 32
    requires s[i] == BACKSLASH && s[i + 1] == 'u' as int && s[i + 2] == HexDigit(0) && s[i + 3] == HexDigit(0)
    requires s[i + 4] == HexDigit(c / 16) && s[i + 5] == HexDigit(c % 16)
    ensures DecodeOne(s, i) == Some(Decoded([c], i + 6)) && SkipBody(s, i) == SkipBody(s, i + 6)
  {
    HexDigitValue(c / 16);
    HexDigitValue(c % 16);
    HexDigitValue(0);
    assert Hex4(s, i + 2) == Some(c);
    assert SkipBody(s, i) == SkipBody(s, i + 2);
    SkipFourHex(s, i + 2);
  }

  lemma ProcessTurn(s: seq<byte>, i: nat, end: nat, x: seq<byte>, next: nat)
    requires Terminated(s) && i < end < |s| && s[i] != 0
    requires DecodeOne(s, i) == Some(Decoded(x, next))
    ensures next < |s| && Process(s, i, end) == Prepend(x, Process(s, next, end))
  {
  }

  /** Escaped text is decoded to the string it came from, and the quote scan passes over all of it. */
  lemma {:induction false} EscapeRoundTrip(s: seq<byte>, i: nat, end: nat, str: seq<byte>, escapeSlashes: bool)
    requires Terminated(s) && Has(s, i, Escape(str, escapeSlashes))
    requires end == i + |Escape(str, escapeSlashes)| < |s|
    ensures Process(s, i, end) == Some(Decoded(str, end))
    ensures SkipBody(s, i) == SkipBody(s, end)
    decreases |str|
  {
    if str != [] {
      var e, rest := EscapeByte(str[0], escapeSlashes), Escape(str[1..], escapeSlashes);
      var next := i + |e|;
      HasSplit(s, i, e, rest);
      EscapeByteReads(s, i, next, str[0], escapeSlashes);
      EscapeRoundTrip(s, next, end, str[1..], escapeSlashes);
      ProcessTurn(s, i, end, [str[0]], next);
      assert [str[0]] + str[1..] == str;
    }
  }

  /** `get_quoted_string` as a function: the decoded contents and the position after the closing quote. */
  function GetQuoted(s: seq<byte>, i: nat): (d: Option<Decoded>)
    requires Terminated(s) && i < |s|
    ensures d.Some? ==> i + 1 < d.value.next < |s|
  {
    if s[i] != QUOTE then None
    else
      var next := SkipBody(s, i + 1);
      if next.None? then None
      else
        var d := Process(s, i + 1, next.value - 1);
        if d.None? then None else Some(Decoded(d.value.bytes, next.value))
  }

  /** Where the contents of a quoted string stand, and what they decode to. */
  lemma QuotedEnd(s: seq<byte>, i: nat) returns (start: nat, end: nat, bytes: seq<byte>)
    requires Terminated(s) && i < |s| && GetQuoted(s, i).Some?
    ensures start == i + 1 <= end < |s| && s[i] == QUOTE && s[end] == QUOTE
    ensures SkipBody(s, start) == Some(end + 1)
    ensures Process(s, start, end).Some? && Process(s, start, end).value.bytes == bytes
    ensures GetQuoted(s, i) == Some(Decoded(bytes, end + 1))
  {
    start, end, bytes := i + 1, SkipBody(s, i + 1).value - 1, GetQuoted(s, i).value.bytes;
  }

  lemma QuotedIs(s: seq<byte>, i: nat, start: nat, end: nat, bytes: seq<byte>)
    requires Terminated(s) && start == i + 1 <= end < |s| && s[i] == QUOTE && SkipBody(s, start) == Some(end + 1)
    requires Process(s, start, end).Some? && Process(s, start, end).value.bytes == bytes
    ensures GetQuoted(s, i) == Some(Decoded(bytes, end + 1))
  {
  }

  /** For every byte string and either slash setting, the quoted text reads back as the string. */
  lemma QuotedRoundTrip(s: seq<byte>, i: nat, str: seq<byte>, escapeSlashes: bool)
    requires Terminated(s) && Has(s, i, Quoted(str, escapeSlashes))
    ensures i < |s| && GetQuoted(s, i) == Some(Decoded(str, i + |Quoted(str, escapeSlashes)|))
  {
    QuotedReads(s, i, i + 1 + |Escape(str, escapeSlashes)|, str, escapeSlashes);
  }

  lemma QuotedReads(s: seq<byte>, i: nat, end: nat, str: seq<byte>, escapeSlashes: bool)
    requires Terminated(s) && Has(s, i, Quoted(str, escapeSlashes)) && end == i + 1 + |Escape(str, escapeSlashes)|
    ensures i < |s| && GetQuoted(s, i) == Some(Decoded(str, end + 1))
  {
    QuotedLies(s, i, end, Escape(str, escapeSlashes));
    EscapeRoundTrip(s, i + 1, end, str, escapeSlashes);
    QuotedParts(s, i, end, str);
  }

  lemma QuotedLies(s: seq<byte>, i: nat, end: nat, e: seq<byte>)
    requires Terminated(s) && Has(s, i, [QUOTE] + e + [QUOTE]) && end == i + 1 + |e|
    ensures i < end < |s| && s[i] == QUOTE && s[end] == QUOTE && Has(s, i + 1, e)
  {
    HasThree(s, i, [QUOTE], e, [QUOTE]);
    HasAt(s, i, [QUOTE], 0);
    HasAt(s, end, [QUOTE], 0);
  }

  lemma QuotedParts(s: seq<byte>, i: nat, end: nat, str: seq<byte>)
    requires Terminated(s) && i < end < |s| && s[i] == QUOTE && s[end] == QUOTE
    requires SkipBody(s, i + 1) == SkipBody(s, end) && Process(s, i + 1, end) == Some(Decoded(str, end))
    ensures GetQuoted(s, i) == Some(Decoded(str, end + 1))
  {
  }

  /** On delimited text, success means exactly the delimited length was consumed and no more was written. */
  lemma {:induction false} ConsumesExactly(s: seq<byte>, i: nat, end: nat)
    requires Terminated(s) && i <= end < |s| && SkipBody(s, i) == Some(end + 1)
    ensures Process(s, i, end).Some? ==>
              var d := Process(s, i, end).value; d.next == end && |d.bytes| <= end - i
    decreases |s| - i
  {
    if i < end && Process(s, i, end).Some? {
      assert s[i] != 0;
      var next := DecodeOne(s, i).value.next;
      TurnStaysInside(s, i, end, next);
      ConsumesExactly(s, next, end);
    }
  }

  method GetQuotedString(s: seq<byte>, i: nat) returns (d: Option<Decoded>)
    requires Terminated(s) && i < |s|
    ensures d == GetQuoted(s, i)
  {
    var next := SkipQuotes(s, i);
    if next.None? {
      return None;
    }
    var output := ProcessString(s, i + 1, next.value - i - 2);
    if output.None? {
      return None;
    }
    return Some(Decoded(output.value, next.value));
  }

  // ----- UTF-8 -----

  /** Section 2.2 of RFC 2781 and section 7 of RFC 8259: the code point named by the escape at `i`. */
  ghost function NamedCodePoint(s: seq<byte>, i: nat): (cp: nat)
    requires Terminated(s) && i < |s| && HexFollows(s, i)
  {
    var cp := Hex4(s, i + 2).value;
    if IsLead(cp) && HexFollows(s, i + 6) && IsTrail(Hex4(s, i + 8).value) then PairCodePoint(cp, Hex4(s, i + 8).value)
    else cp
  }

  /** A successful `\u` escape or surrogate pair contributes the encoding of the code point it names. */
  lemma EscapeNamesCodePoint(s: seq<byte>, i: nat)
    requires Terminated(s) && i < |s| && s[i] == BACKSLASH && s[i + 1] == 'u' as int
    requires ParseUtf16(s, i + 1).Some?
    ensures HexFollows(s, i) && Scalar(NamedCodePoint(s, i))
    ensures ParseUtf16(s, i + 1).value.bytes == Encode(NamedCodePoint(s, i))
  {
    var cp := Hex4(s, i + 2).value;
    if 0x80 <= cp < 0x10000 && !(0xD800 <= cp <= 0xDFFF) {
      BytesOfIsEncode(cp);
    } else if cp >= 0xD800 {
      var trail := Hex4(s, i + 8).value;
      SmallMod(cp - 0xD800);
      SmallMod(trail - 0xDC00);
      BytesOfIsEncode(PairCodePoint(cp, trail));
    }
  }

  lemma BytesOfIsEncode(cp: nat)
    requires Scalar(cp) && cp >= 0x80
    ensures Encode(cp) == if cp < 0x800 then TwoBytesOf(cp) else if cp < 0x10000 then ThreeBytesOf(cp)
              else FourBytesOf(cp)
  {
    if cp < 0x800 {
      assert cp / 64 % 32 == cp / 64;
    } else if cp < 0x10000 {
      assert cp / 4096 % 16 == cp / 4096;
    } else {
      assert cp / 262144 % 8 == cp / 262144;
    }
  }

  lemma SmallMod(x: nat)
    requires x < 1024
    ensures x % 1024 == x
  {
  }

  lemma PairParses(s: seq<byte>, i: nat, lead: nat, trail: nat)
    requires Terminated(s) && i < |s| && s[i] == 'u' as int && Hex4(s, i + 1) == Some(lead) && IsLead(lead)
    requires s[i + 5] == BACKSLASH && s[i + 6] == 'u' as int && Hex4(s, i + 7) == Some(trail) && IsTrail(trail)
    ensures ParseUtf16(s, i) == Some(Decoded(FourBytesOf(PairCodePoint(lead, trail)), i + 11))
  {
    SmallMod(lead - 0xD800);
    SmallMod(trail - 0xDC00);
  }

  lemma DropAscii(t: seq<byte>, k: nat)
    requires WellFormed(t) && k <= |t| && forall j :: 0 <= j < k ==> t[j] < 0x80
    ensures WellFormed(t[k..])
  {
    if k > 0 {
      var cps: seq<nat> :| Scalars(cps) && t == EncodeAll(cps);
      FirstEncoding(t, cps);
      assert t[0] == Encode(cps[0])[0];
      assert t[1..][k - 1..] == t[k..];
      DropAscii(t[1..], k - 1);
    } else {
      assert t[0..] == t;
    }
  }

  /** Bytes of a multi-byte sequence pass through the decoder one at a time. */
  lemma {:induction false} HighBytesPass(s: seq<byte>, i: nat, next: nat, end: nat)
    requires Terminated(s) && i <= next <= end < |s| && forall k :: i <= k < next ==> s[k] >= 0x80
    ensures Process(s, i, end) == Prepend(s[i..next], Process(s, next, end))
    decreases next - i
  {
    if i == next {
      PrependTwice([], [], Process(s, i, end));
      assert s[i..i] == [];
    } else {
      HighBytesPass(s, i + 1, next, end);
      PrependTwice([s[i]], s[i + 1..next], Process(s, next, end));
      assert [s[i]] + s[i + 1..next] == s[i..next];
      ProcessTurn(s, i, end, [s[i]], i + 1);
    }
  }

  /** Unescaping keeps well-formed UTF-8 well-formed. */
  lemma {:induction false} ProcessKeepsUtf8(s: seq<byte>, i: nat, end: nat)
    requires Terminated(s) && i <= end < |s| && SkipBody(s, i) == Some(end + 1)
    requires WellFormed(s[i..end])
    ensures Process(s, i, end).Some? ==> WellFormed(Process(s, i, end).value.bytes)
    decreases |s| - i
  {
    if i == end {
      assert EncodeAll([]) == [];
    } else if Process(s, i, end).Some? {
      assert s[i] != 0;
      if s[i] >= 0x80 {
        PassSequence(s, i, end);
      } else {
        var one := DecodeOne(s, i).value;
        TurnStaysInside(s, i, end, one.next);
        AsciiTurn(s, i, one.next);
        DropAscii(s[i..end], one.next - i);
        assert s[i..end][one.next - i..] == s[one.next..end];
        ProcessKeepsUtf8(s, one.next, end);
        TurnOutput(s, i);
        Concat(one.bytes, Process(s, one.next, end).value.bytes);
      }
    }
  }

  lemma PassSequence(s: seq<byte>, i: nat, end: nat)
    requires Terminated(s) && i < end < |s| && SkipBody(s, i) == Some(end + 1)
    requires WellFormed(s[i..end]) && s[i] >= 0x80 && Process(s, i, end).Some?
    ensures WellFormed(Process(s, i, end).value.bytes)
    decreases |s| - i, 0
  {
    var cp, next := LeadingSequence(s, i, end);
    HighBytesPass(s, i, next, end);
    HighBytesSkipped(s, i, next);
    ProcessKeepsUtf8(s, next, end);
    PutFirstDecoded(cp, Process(s, next, end));
  }

  lemma PutFirstDecoded(cp: nat, rest: Option<Decoded>)
    requires Scalar(cp) && (rest.Some? ==> WellFormed(rest.value.bytes))
    ensures var all := Prepend(Encode(cp), rest); all.Some? ==> WellFormed(all.value.bytes)
  {
    if rest.Some? {
      PutFirst(cp, rest.value.bytes);
    }
  }

  /** The multi-byte sequence at the head of well-formed text. */
  lemma LeadingSequence(s: seq<byte>, i: nat, end: nat) returns (cp: nat, next: nat)
    requires i < end < |s| && WellFormed(s[i..end]) && s[i] >= 0x80
    ensures Scalar(cp) && i < next <= end && s[i..next] == Encode(cp) && WellFormed(s[next..end])
    ensures forall k :: i <= k < next ==> s[k] >= 0x80
  {
    var t := s[i..end];
    var cps: seq<nat> :| Scalars(cps) && t == EncodeAll(cps);
    FirstEncoding(t, cps);
    cp := cps[0];
    next := i + |Encode(cp)|;
    LeadingPlace(s, i, end, cp, next);
    HighBytes(s, i, Encode(cp));
  }

  lemma LeadingPlace(s: seq<byte>, i: nat, end: nat, cp: nat, next: nat)
    requires i < end < |s| && Scalar(cp) && s[i] >= 0x80 && |Encode(cp)| <= end - i && next == i + |Encode(cp)|
    requires s[i..end][..|Encode(cp)|] == Encode(cp)
    ensures Has(s, i, Encode(cp)) && s[i..next] == Encode(cp) && cp >= 0x80
    ensures s[i..end][|Encode(cp)|..] == s[next..end]
  {
    SliceHas(s, i, end, Encode(cp));
    HasAt(s, i, Encode(cp), 0);
  }

  lemma HighBytes(s: seq<byte>, i: nat, e: seq<byte>)
    requires Has(s, i, e) && forall k :: 0 <= k < |e| ==> e[k] >= 0x80
    ensures forall k :: i <= k < i + |e| ==> s[k] >= 0x80
  {
    forall k | i <= k < i + |e| ensures s[k] >= 0x80 {
      HasAt(s, i, e, k - i);
    }
  }

  lemma HighBytesSkipped(s: seq<byte>, i: nat, next: nat)
    requires Terminated(s) && i <= next < |s| && forall k :: i <= k < next ==> s[k] >= 0x80
    ensures SkipBody(s, i) == SkipBody(s, next)
    decreases next - i
  {
    if i < next {
      HighBytesSkipped(s, i + 1, next);
    }
  }

  lemma AsciiTurn(s: seq<byte>, i: nat, next: nat)
    requires Terminated(s) && i < |s| && s[i] < 0x80 && s[i] != 0
    requires DecodeOne(s, i).Some? && next == DecodeOne(s, i).value.next
    ensures next < |s| && forall k :: i <= k < next ==> s[k] < 0x80
  {
    if next == i + 6 || next == i + 12 {
      assert HexFollows(s, i);
    }
  }

  lemma TurnOutput(s: seq<byte>, i: nat)
    requires Terminated(s) && i < |s| && s[i] < 0x80 && s[i] != 0 && DecodeOne(s, i).Some?
    ensures WellFormed(DecodeOne(s, i).value.bytes)
  {
    var cp: nat;
    if s[i] == BACKSLASH && s[i + 1] == 'u' as int {
      EscapeNamesCodePoint(s, i);
      cp := NamedCodePoint(s, i);
    } else {
      cp := DecodeOne(s, i).value.bytes[0];
    }
    assert EncodeAll([]) == [];
    PutFirst(cp, []);
    assert DecodeOne(s, i).value.bytes == Encode(cp) + [];
  }
}
