/**
 Decimal integers: the part of the number text that the log uses. They show that the assumption on
 `strtod` and `sprintf` can be met, for the integers that a double holds exactly and beyond.
 */
module Integers {
  import opened Bytes
  import opened Comments
  import opened JsonTrees
  import opened Options
  import opened ParseLocality
  import opened Strings

  function Digits(n: nat): (t: seq<byte>)
    ensures |t| > 0 && forall k :: 0 <= k < |t| ==> IsDigit(t[k])
    ensures n > 0 ==> t[0] != '0' as int
    ensures n == 0 ==> |t| == 1
  {
    if n < 10 then ['0' as int + n] else Digits(n / 10) + ['0' as int + n % 10]
  }

  function Decimal(n: int): seq<byte> {
    if n < 0 then ['-' as int] + Digits(-n) else Digits(n)
  }

  /** How many digits the text starts with. */
  function DigitRun(t: seq<byte>): (n: nat)
    ensures n <= |t| && forall k :: 0 <= k < n ==> IsDigit(t[k])
  {
    if |t| > 0 && IsDigit(t[0]) then 1 + DigitRun(t[1..]) else 0
  }

  function ValueOf(digits: seq<byte>): nat
    requires forall k :: 0 <= k < |digits| ==> IsDigit(digits[k])
  {
    if digits == [] then 0
    else
      var last: int := digits[|digits| - 1];
      assert IsDigit(digits[|digits| - 1]);
      ValueOf(digits[..|digits| - 1]) * 10 + last - 48
  }

  /** How many white space bytes the text starts with. */
  function LeadingSpace(t: seq<byte>): (n: nat)
    ensures n <= |t|
    ensures n < |t| ==> !IsSpace(t[n])
  {
    if |t| > 0 && IsSpace(t[0]) then 1 + LeadingSpace(t[1..]) else 0
  }

  /** `strtod` on an integer: white space, a sign and digits; 0 and nothing taken where there are no digits. */
  function ReadInteger(t: seq<byte>): (r: NumberRead)
    ensures |t| > 0 ==> r.length < |t|
  {
    var w := LeadingSpace(t);
    var start := if w < |t| && t[w] == '-' as int then w + 1 else w;
    var end := start + DigitRun(t[start..]);
    var value: int := ValueOf(t[start..end]);
    if end == start || end == |t| then NumberRead(Some(0.0), 0)
    else NumberRead(Some((if start > w then -value else value) as real), end)
  }

  function FormatInteger(x: real): seq<byte> {
    Decimal(x.Floor)
  }

  function IntegerLibc(): Libc {
    LibcCalls(FormatInteger, ReadInteger)
  }

  lemma DigitsValue(n: nat)
    ensures ValueOf(Digits(n)) == n
  {
    if n >= 10 {
      DigitsValue(n / 10);
      var t := Digits(n);
      assert t[..|t| - 1] == Digits(n / 10);
    }
  }

  lemma {:induction false} RunStopsAfter(digits: seq<byte>, rest: seq<byte>)
    requires forall k :: 0 <= k < |digits| ==> IsDigit(digits[k])
    requires |rest| > 0 && !IsDigit(rest[0])
    ensures DigitRun(digits + rest) == |digits|
    decreases |digits|
  {
    if digits == [] {
      assert digits + rest == rest;
    } else {
      assert (digits + rest)[1..] == digits[1..] + rest;
      RunStopsAfter(digits[1..], rest);
    }
  }

  lemma ReadIs(t: seq<byte>, sign: nat, end: nat, value: int)
    requires |t| > 0 && !IsSpace(t[0]) && sign == (if t[0] == '-' as int then 1 else 0)
    requires sign < end < |t| && end == sign + DigitRun(t[sign..]) && ValueOf(t[sign..end]) == value
    ensures ReadInteger(t) == NumberRead(Some((if sign == 1 then -value else value) as real), end)
  {
    assert LeadingSpace(t) == 0;
  }

  lemma ReadsDecimal(n: int, rest: seq<byte>)
    requires |rest| > 0 && !IsDigit(rest[0])
    ensures ReadInteger(Decimal(n) + rest) == NumberRead(Some(n as real), |Decimal(n)|)
  {
    var t, m := Decimal(n) + rest, if n < 0 then -n else n;
    var digits, sign := Digits(m), if n < 0 then 1 else 0;
    assert t[0] == Decimal(n)[0];
    assert t[sign..] == digits + rest;
    RunStopsAfter(digits, rest);
    assert t[sign..sign + |digits|] == digits;
    DigitsValue(m);
    ReadIs(t, sign, sign + |digits|, m);
  }

  lemma DecimalIsNumber(n: int, t: seq<byte>)
    requires t == Decimal(n)
    ensures |t| > 0 && (IsDigit(t[0]) || t[0] == '-' as int) && IsDecimal(t)
    ensures forall k :: 0 <= k < |t| ==> NumberByte(t[k])
  {
  }

  /** Every integer reads back as it was printed. */
  lemma IntegersReadBack(n: int)
    ensures ReadsBack(IntegerLibc(), n as real)
  {
    var x := n as real;
    assert x.Floor == n;
    DecimalIsNumber(n, FormatInteger(x));
    forall rest: seq<byte> | |rest| > 0 && !ContinuesNumber(rest[0])
      ensures ReadInteger(FormatInteger(x) + rest) == NumberRead(Some(x), |FormatInteger(x)|)
    {
      ReadsDecimal(n, rest);
    }
  }

  /** Trees with integer numbers meet the assumption of the round trip. */
  lemma {:induction false} IntegralReadsBack(v: Json)
    requires Integral(v)
    ensures NumbersReadBack(IntegerLibc(), v)
    decreases v
  {
    match v
    case Number(x) =>
      IntegersReadBack(x.Floor);
    case Array(items) =>
      forall i | 0 <= i < |items| ensures NumbersReadBack(IntegerLibc(), items[i]) {
        IntegralReadsBack(items[i]);
      }
    case Object(ms) =>
      forall i | 0 <= i < |ms| ensures NumbersReadBack(IntegerLibc(), ms[i].value) {
        IntegralReadsBack(ms[i].value);
      }
    case _ =>
  }

  /** The digits at the head of `t` stay as they are when only bytes behind them are blanked out. */
  lemma RunLocal(t: seq<byte>, t': seq<byte>, sign: nat, end: nat)
    requires Terminated(t) && OnlyBlanks(t, t', end) && sign <= |t| && end == sign + DigitRun(t[sign..]) < |t|
    ensures t'[sign..end] == t[sign..end] && DigitRun(t'[sign..]) == end - sign
  {
    var digits := t[sign..end];
    assert forall k :: 0 <= k < |digits| ==> digits[k] == t[sign..][k];
    RunMaximal(t[sign..]);
    assert t'[sign..] == digits + t'[end..];
    RunStopsAfter(digits, t'[end..]);
  }

  lemma RunMaximal(t: seq<byte>)
    ensures DigitRun(t) < |t| ==> !IsDigit(t[DigitRun(t)])
  {
  }

  lemma RunInside(t: seq<byte>, sign: nat)
    requires Terminated(t) && sign < |t|
    ensures sign + DigitRun(t[sign..]) < |t|
  {
    assert t[sign..][|t| - sign - 1] == 0;
  }

  lemma IntegerRead(t: seq<byte>)
    requires Terminated(t) && StartsNumber(t[0])
    ensures OrdinaryRead(IntegerLibc(), t)
  {
    var sign := if t[0] == '-' as int then 1 else 0;
    var end := sign + DigitRun(t[sign..]);
    RunInside(t, sign);
    var n := ReadInteger(t).length;
    forall k | 0 <= k < n ensures t[k] != 0 && t[k] != QUOTE && t[k] != BACKSLASH && t[k] != SLASH {
      assert k >= sign ==> IsDigit(t[sign..][k - sign]);
    }
    forall t': seq<byte> | Terminated(t') && OnlyBlanks(t, t', if n == 0 then 1 else n)
      ensures ReadInteger(t') == ReadInteger(t)
    {
      assert OnlyBlanks(t, t', end);
      RunLocal(t, t', sign, end);
    }
  }

  /** The assumption on `strtod` under which comments can be allowed is met as well. */
  lemma IntegersOrdinary()
    ensures OrdinaryStrtod(IntegerLibc())
  {
    forall t: seq<byte> | Terminated(t) && StartsNumber(t[0]) ensures OrdinaryRead(IntegerLibc(), t) {
      IntegerRead(t);
    }
  }
}
