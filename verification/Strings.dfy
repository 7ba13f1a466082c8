/**
 JSON string text: escaping (include/parson.c:1290-1355), the quote-to-quote scan (787-805) and
 unescaping with UTF-16 surrogates (807-922).
 */
module Strings {
  import opened Bytes
  import opened Options

  const QUOTE: byte := 34
  const BACKSLASH: byte := 92
  const SLASH: byte := 47

  /** The two-byte escapes: the byte after the backslash, or None. */
  function ShortEscape(c: byte): Option<byte> {
    if c == QUOTE then Some(QUOTE)
    else if c == BACKSLASH then Some(BACKSLASH)
    else if c == 8 then Some('b' as int)
    else if c == 12 then Some('f' as int)
    else if c == 10 then Some('n' as int)
    else if c == 13 then Some('r' as int)
    else if c == 9 then Some('t' as int)
    else None
  }

  function HexDigit(d: nat): byte
    requires d < 16
  {
    if d < 10 then '0' as int + d else 'a' as int + d - 10
  }

  function EscapeByte(c: byte, escapeSlashes: bool): (e: seq<byte>)
    ensures 1 <= |e| <= 6
  {
    if ShortEscape(c).Some? then [BACKSLASH, ShortEscape(c).value]
    else if c < 32 then [BACKSLASH, 'u' as int, '0' as int, '0' as int, HexDigit(c / 16), HexDigit(c % 16)]
    else if c == SLASH && escapeSlashes then [BACKSLASH, SLASH]
    else [c]
  }

  function Escape(s: seq<byte>, escapeSlashes: bool): seq<byte> {
    if s == [] then [] else EscapeByte(s[0], escapeSlashes) + Escape(s[1..], escapeSlashes)
  }

  function Quoted(s: seq<byte>, escapeSlashes: bool): seq<byte> {
    [QUOTE] + Escape(s, escapeSlashes) + [QUOTE]
  }

  /** From inside a string, the position just after its closing quote. */
  function SkipBody(s: seq<byte>, i: nat): (next: Option<nat>)
    requires Terminated(s) && i < |s|
    ensures next.Some? ==> i < next.value < |s| && s[next.value - 1] == QUOTE
    decreases |s| - i
  {
    if s[i] == QUOTE then Some(i + 1)
    else if s[i] == 0 then None
    else if s[i] == BACKSLASH then
      if s[i + 1] == 0 then None else SkipBody(s, i + 2)
    else SkipBody(s, i + 1)
  }

  method SkipQuotes(s: seq<byte>, i: nat) returns (next: Option<nat>)
    requires Terminated(s) && i < |s|
    ensures next == if s[i] == QUOTE then SkipBody(s, i + 1) else None
  {
    if s[i] != QUOTE {
      return None;
    }
    var p := i + 1;
    while s[p] != QUOTE
      invariant p < |s| && SkipBody(s, i + 1) == SkipBody(s, p)
      decreases |s| - p
    {
      if s[p] == 0 {
        return None;
      } else if s[p] == BACKSLASH {
        p := p + 1;
        if s[p] == 0 {
          return None;
        }
      }
      p := p + 1;
    }
    return Some(p + 1);
  }

  function HexValue(c: byte): int {
    if '0' as int <= c <= '9' as int then c - '0' as int
    else if 'a' as int <= c <= 'f' as int then c - 'a' as int + 10
    else if 'A' as int <= c <= 'F' as int then c - 'A' as int + 10
    else -1
  }

  /** Four hex digits; a byte is read only while all before it are not NUL. */
  function Hex4(s: seq<byte>, i: nat): (cp: Option<nat>)
    requires Terminated(s) && i < |s|
    ensures cp.Some? ==> cp.value < 0x10000 && i + 4 < |s|
    ensures cp.Some? ==> forall k :: i <= k < i + 4 ==> HexValue(s[k]) >= 0
  {
    if s[i] == 0 || s[i + 1] == 0 || s[i + 2] == 0 || s[i + 3] == 0 then None
    else if HexValue(s[i]) == -1 || HexValue(s[i + 1]) == -1
            || HexValue(s[i + 2]) == -1 || HexValue(s[i + 3]) == -1 then None
    else Some(HexValue(s[i]) * 4096 + HexValue(s[i + 1]) * 256 + HexValue(s[i + 2]) * 16 + HexValue(s[i + 3]))
  }

  /** Decoded bytes and the position where decoding stopped. */
  datatype Decoded = Decoded(bytes: seq<byte>, next: nat)

  predicate IsLead(cp: nat) { 0xD800 <= cp <= 0xDBFF }

  predicate IsTrail(cp: nat) { 0xDC00 <= cp <= 0xDFFF }

  /** Section 2.2 of RFC 2781: the code point of a surrogate pair. */
  function PairCodePoint(lead: nat, trail: nat): (cp: nat)
    requires IsLead(lead) && IsTrail(trail)
    ensures 0x10000 <= cp <= 0x10FFFF
  {
    (lead - 0xD800) * 1024 + (trail - 0xDC00) + 0x10000
  }

  // The masks and shifts by which `parse_utf16` writes a code point: `(cp >> 6) & 0x1F | 0xC0` and so on.

  function TwoBytesOf(cp: nat): seq<byte> {
    [cp / 64 % 32 + 0xC0, cp % 64 + 0x80]
  }

  function ThreeBytesOf(cp: nat): seq<byte> {
    [cp / 4096 % 16 + 0xE0, cp / 64 % 64 + 0x80, cp % 64 + 0x80]
  }

  function FourBytesOf(cp: nat): seq<byte> {
    [cp / 262144 % 8 + 0xF0, cp / 4096 % 64 + 0x80, cp / 64 % 64 + 0x80, cp % 64 + 0x80]
  }

  /** A whole `\u` escape stands at `i`. */
  ghost predicate HexFollows(s: seq<byte>, i: nat)
    requires Terminated(s) && i < |s|
  {
    s[i] == BACKSLASH && s[i + 1] == 'u' as int && Hex4(s, i + 2).Some?
  }

  /** The escape whose `u` stands at `i`: one code unit, or a surrogate pair of two escapes. */
  function ParseUtf16(s: seq<byte>, i: nat): (d: Option<Decoded>)
    requires Terminated(s) && i < |s| && s[i] == 'u' as int
    ensures d.Some? ==> d.value.next < |s| && 1 <= |d.value.bytes| <= 4 && Hex4(s, i + 1).Some?
    ensures d.Some? ==> d.value.next == i + 5 || (d.value.next == i + 11 && HexFollows(s, i + 5))
  {
    var first := Hex4(s, i + 1);
    if first.None? then None
    else
      var cp := first.value;
      if cp < 0x80 then Some(Decoded([cp], i + 5))
      else if cp < 0x800 then
        Some(Decoded(TwoBytesOf(cp), i + 5))
      else if cp < 0xD800 || cp > 0xDFFF then
        Some(Decoded(ThreeBytesOf(cp), i + 5))
      else if cp <= 0xDBFF then
        if s[i + 5] != BACKSLASH || s[i + 6] != 'u' as int then None
        else
          var trail := Hex4(s, i + 7);
          if trail.None? || !IsTrail(trail.value) then None
          else
            var cp := (cp - 0xD800) % 1024 * 1024 + (trail.value - 0xDC00) % 1024 + 0x10000;
            Some(Decoded(FourBytesOf(cp), i + 11))
      else None
  }

  /** The byte named by a two-byte escape other than `\u`. */
  function Unescape(c: byte): Option<byte> {
    if c == QUOTE then Some(QUOTE)
    else if c == BACKSLASH then Some(BACKSLASH)
    else if c == SLASH then Some(SLASH)
    else if c == 'b' as int then Some(8)
    else if c == 'f' as int then Some(12)
    else if c == 'n' as int then Some(10)
    else if c == 'r' as int then Some(13)
    else if c == 't' as int then Some(9)
    else None
  }

  /** `next` is where a successful turn of the decoding loop at `i` leads. */
  ghost predicate Turn(s: seq<byte>, i: nat, next: nat)
    requires Terminated(s) && i < |s|
  {
    || (next == i + 1 && s[i] >= 32 && s[i] != BACKSLASH)
    || (next == i + 2 && s[i] == BACKSLASH && s[i + 1] != 0)
    || (next == i + 6 && HexFollows(s, i))
    || (next == i + 12 && HexFollows(s, i) && HexFollows(s, i + 6))
  }

  /** One turn of the decoding loop at `i`: what it appends and where it goes on. */
  function DecodeOne(s: seq<byte>, i: nat): (d: Option<Decoded>)
    requires Terminated(s) && i < |s| && s[i] != 0
    ensures d.Some? ==> i < d.value.next < |s| && 1 <= |d.value.bytes| <= d.value.next - i
    ensures d.Some? ==> Turn(s, i, d.value.next)
  {
    if s[i] == BACKSLASH then
      if s[i + 1] == 'u' as int then ParseUtf16(s, i + 1)
      else if Unescape(s[i + 1]).Some? then Some(Decoded([Unescape(s[i + 1]).value], i + 2))
      else None
    else if s[i] < 32 then None
    else Some(Decoded([s[i]], i + 1))
  }

  function Prepend(x: seq<byte>, d: Option<Decoded>): Option<Decoded> {
    if d.None? then None else Some(Decoded(x + d.value.bytes, d.value.next))
  }

  lemma PrependTwice(x: seq<byte>, y: seq<byte>, d: Option<Decoded>)
    ensures Prepend(x, Prepend(y, d)) == Prepend(x + y, d)
    ensures Prepend([], d) == d
  {
    if d.Some? {
      assert x + (y + d.value.bytes) == x + y + d.value.bytes;
      assert [] + d.value.bytes == d.value.bytes;
    }
  }

  /** What `process_string` makes of the text from `i` to `end`, and where it stops. */
  function Process(s: seq<byte>, i: nat, end: nat): (d: Option<Decoded>)
    requires Terminated(s) && i < |s|
    decreases |s| - i
  {
    if s[i] == 0 || i >= end then Some(Decoded([], i))
    else
      var one := DecodeOne(s, i);
      if one.None? then None
      else
        Prepend(one.value.bytes, Process(s, one.value.next, end))
  }

  lemma OutputGrows(s: seq<byte>, i: nat, end: nat, output: seq<byte>)
    requires Terminated(s) && i < end < |s| && s[i] != 0 && DecodeOne(s, i).Some?
    ensures var one := DecodeOne(s, i).value;
            Prepend(output, Process(s, i, end)) == Prepend(output + one.bytes, Process(s, one.next, end))
  {
    var one := DecodeOne(s, i).value;
    PrependTwice(output, one.bytes, Process(s, one.next, end));
  }

  lemma OutputDone(s: seq<byte>, i: nat, end: nat, output: seq<byte>)
    requires Terminated(s) && i < |s| && (i >= end || s[i] == 0)
    ensures Prepend(output, Process(s, i, end)) == Some(Decoded(output, i))
  {
    assert output + [] == output;
  }

  /** The loop over an output buffer of `len + 1` bytes, for text that `SkipQuotes` has delimited. */
  method ProcessString(s: seq<byte>, start: nat, len: nat) returns (output: Option<seq<byte>>)
    requires Terminated(s) && start < |s| && SkipBody(s, start) == Some(start + len + 1)
    ensures match Process(s, start, start + len)
            case None => output == None
            case Some(d) => output == Some(d.bytes) && d.next == start + len
  {
    var buf := new byte[len + 1](_ => 0);
    var o := 0;
    var i := start;
    var end := start + len;
    PrependTwice(buf[..o], [], Process(s, i, end));
    while s[i] != 0 && i - start < len
      invariant start <= i <= end && 0 <= o <= i - start
      invariant SkipBody(s, i) == Some(end + 1)
      invariant Process(s, start, end) == Prepend(buf[..o], Process(s, i, end))
      decreases end - i
    {
      var one := DecodeOne(s, i);
      if one.None? {
        return None;
      }
      TurnStaysInside(s, i, end, one.value.next);
      OutputGrows(s, i, end, buf[..o]);
      Store(buf, o, one.value.bytes);
      o := o + |one.value.bytes|;
      i := one.value.next;
    }
    OutputDone(s, i, end, buf[..o]);
    output := Some(buf[..o]);
    buf[o] := 0;
  }

  method Store(buf: array<byte>, o: nat, x: seq<byte>)
    requires o + |x| <= buf.Length
    modifies buf
    ensures buf[..o + |x|] == old(buf[..o]) + x
  {
    var k := 0;
    while k < |x|
      invariant k <= |x| && buf[..o + k] == old(buf[..o]) + x[..k]
    {
      buf[o + k] := x[k];
      k := k + 1;
    }
  }

  /** A turn inside delimited text ends at or before the closing quote, between two escapes. */
  lemma TurnStaysInside(s: seq<byte>, i: nat, end: nat, next: nat)
    requires Terminated(s) && i < end < |s| && SkipBody(s, i) == Some(end + 1)
    requires Turn(s, i, next)
    ensures next <= end && SkipBody(s, next) == Some(end + 1)
  {
    assert s[i] != QUOTE;
    if next == i + 2 {
      assert SkipBody(s, i) == SkipBody(s, i + 2);
    } else if next > i + 2 {
      HexDelimited(s, i, end);
      if next == i + 12 {
        HexDelimited(s, i + 6, end);
      }
    }
  }

  lemma HexDelimited(s: seq<byte>, i: nat, end: nat)
    requires Terminated(s) && i < |s| && SkipBody(s, i) == Some(end + 1) && HexFollows(s, i)
    ensures SkipBody(s, i + 6) == Some(end + 1)
  {
    SkipFourHex(s, i + 2);
  }

  /** Hex digits are neither quotes nor backslashes. */
  lemma SkipFourHex(s: seq<byte>, i: nat)
    requires Terminated(s) && i < |s| && Hex4(s, i).Some?
    ensures SkipBody(s, i) == SkipBody(s, i + 4)
  {
    assert HexValue(s[i]) >= 0 && HexValue(s[i + 1]) >= 0 && HexValue(s[i + 2]) >= 0 && HexValue(s[i + 3]) >= 0;
    assert SkipBody(s, i) == SkipBody(s, i + 1) == SkipBody(s, i + 2) == SkipBody(s, i + 3) == SkipBody(s, i + 4);
  }
}
