/** Bytes, C strings and NUL-terminated buffers. */
module Bytes {

  /** One `unsigned char`. */
  type byte = x: int | 0 <= x < 256

  /** The contents of a C string: no byte is NUL (the terminator is not part of the value). */
  type CString = s: seq<byte> | 0 !in s

  /** A buffer that ends with a NUL; reading stops at its first NUL, which may come earlier. */
  ghost predicate Terminated(s: seq<byte>) {
    |s| > 0 && s[|s| - 1] == 0
  }

  /** `isspace` in the C locale. */
  predicate IsSpace(c: byte) {
    c == 32 || 9 <= c <= 13
  }

  ghost predicate AllSpace(w: seq<byte>) {
    forall k :: 0 <= k < |w| ==> IsSpace(w[k])
  }

  /** `x` stands in the buffer `s` at offset `i`. */
  ghost predicate Has(s: seq<byte>, i: nat, x: seq<byte>) {
    i + |x| <= |s| && s[i..i + |x|] == x
  }

  lemma Regroup<T>(a: seq<T>, b: seq<T>, c: seq<T>)
    ensures a + (b + c) == a + b + c
  {
  }

  lemma HasSplit(s: seq<byte>, i: nat, a: seq<byte>, b: seq<byte>)
    requires Has(s, i, a + b)
    ensures Has(s, i, a) && Has(s, i + |a|, b)
  {
    var w := s[i..i + |a + b|];
    assert s[i..i + |a|] == w[..|a|] == a;
    assert s[i + |a|..i + |a| + |b|] == w[|a|..] == b;
  }

  lemma HasJoin(s: seq<byte>, i: nat, a: seq<byte>, b: seq<byte>)
    requires Has(s, i, a) && Has(s, i + |a|, b)
    ensures Has(s, i, a + b)
  {
    assert s[i..i + |a + b|] == s[i..i + |a|] + s[i + |a|..i + |a| + |b|];
  }

  lemma HasThree(s: seq<byte>, i: nat, a: seq<byte>, b: seq<byte>, c: seq<byte>)
    requires Has(s, i, a + b + c)
    ensures Has(s, i, a) && Has(s, i + |a|, b) && Has(s, i + |a| + |b|, c)
  {
    HasSplit(s, i, a + b, c);
    HasSplit(s, i, a, b);
  }

  lemma HasAt(s: seq<byte>, i: nat, x: seq<byte>, k: nat)
    requires Has(s, i, x) && k < |x|
    ensures i + k < |s| && s[i + k] == x[k]
  {
    assert s[i..i + |x|][k] == x[k];
  }
}
