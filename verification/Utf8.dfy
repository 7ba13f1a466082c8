/** UTF-8: the source's checker against an encoder written from section 3 of RFC 3629. */
module Utf8 {
  import opened Bytes
  import opened Options

  /** Code points other than surrogates. */
  predicate Scalar(cp: nat) {
    cp <= 0x10FFFF && !(0xD800 <= cp <= 0xDFFF)
  }

  /** The shortest-form encoding of a code point. */
  function Encode(cp: nat): (e: seq<byte>)
    requires Scalar(cp)
    ensures 1 <= |e| <= 4
    ensures |e| == 1 <==> cp < 0x80
    ensures |e| > 1 ==> forall k :: 0 <= k < |e| ==> e[k] >= 0x80
  {
    if cp < 0x80 then [cp]
    else if cp < 0x800 then [0xC0 + cp / 64, 0x80 + cp % 64]
    else if cp < 0x10000 then [0xE0 + cp / 4096, 0x80 + cp / 64 % 64, 0x80 + cp % 64]
    else [0xF0 + cp / 262144, 0x80 + cp / 4096 % 64, 0x80 + cp / 64 % 64, 0x80 + cp % 64]
  }

  ghost predicate Scalars(cps: seq<nat>) {
    forall k :: 0 <= k < |cps| ==> Scalar(cps[k])
  }

  ghost function EncodeAll(cps: seq<nat>): seq<byte>
    requires Scalars(cps)
  {
    if cps == [] then [] else Encode(cps[0]) + EncodeAll(cps[1..])
  }

  /** A byte string is well-formed when it is a concatenation of encodings. */
  ghost predicate WellFormed(t: seq<byte>) {
    exists cps: seq<nat> :: Scalars(cps) && t == EncodeAll(cps)
  }

  /** `(b & 0xC0) == 0x80` */
  predicate IsCont(b: byte) {
    b / 64 == 2
  }

  function NumBytesInSequence(c: byte): (n: nat)
    ensures n <= 4
  {
    if c == 0xC0 || c == 0xC1 || c > 0xF4 || IsCont(c) then 0
    else if c / 128 == 0 then 1       // (c & 0x80) == 0
    else if c / 32 == 6 then 2        // (c & 0xE0) == 0xC0
    else if c / 16 == 14 then 3       // (c & 0xF0) == 0xE0
    else if c / 8 == 30 then 4        // (c & 0xF8) == 0xF0
    else 0
  }

  function CodePoint2(a: int, b: int): int {
    a % 32 * 64 + b % 64
  }

  function CodePoint3(a: int, b: int, c: int): int {
    (a % 16 * 64 + b % 64) * 64 + c % 64
  }

  function CodePoint4(a: int, b: int, c: int, d: int): int {
    ((a % 8 * 64 + b % 64) * 64 + c % 64) * 64 + d % 64
  }

  /** The rejections after decoding: overlong forms, numbers above U+10FFFF, surrogate halves. */
  predicate Acceptable(cp: int, len: nat) {
    && !((cp < 0x80 && len > 1) || (cp < 0x800 && len > 2) || (cp < 0x10000 && len > 3))
    && cp <= 0x10FFFF
    && !(0xD800 <= cp <= 0xDFFF)
  }

  /** The length of the sequence that starts at `i`, or None. Reads a byte only after a non-NUL one. */
  function VerifySequence(s: seq<byte>, i: nat): (len: Option<nat>)
    requires Terminated(s) && i < |s|
  {
    var n := NumBytesInSequence(s[i]);
    if n == 1 then
      if Acceptable(s[i], 1) then Some(1) else None
    else if n == 2 && IsCont(s[i + 1]) then
      if Acceptable(CodePoint2(s[i], s[i + 1]), 2) then Some(2) else None
    else if n == 3 && IsCont(s[i + 1]) && IsCont(s[i + 2]) then
      if Acceptable(CodePoint3(s[i], s[i + 1], s[i + 2]), 3) then Some(3) else None
    else if n == 4 && IsCont(s[i + 1]) && IsCont(s[i + 2]) && IsCont(s[i + 3]) then
      if Acceptable(CodePoint4(s[i], s[i + 1], s[i + 2], s[i + 3]), 4) then Some(4) else None
    else None
  }

  lemma TwoBytes(a: byte, b: byte)
    requires NumBytesInSequence(a) == 2 && IsCont(b) && Acceptable(CodePoint2(a, b), 2)
    ensures Encode(CodePoint2(a, b)) == [a, b]
  {
  }

  lemma ThreeBytes(a: byte, b: byte, c: byte)
    requires NumBytesInSequence(a) == 3 && IsCont(b) && IsCont(c) && Acceptable(CodePoint3(a, b, c), 3)
    ensures Encode(CodePoint3(a, b, c)) == [a, b, c]
  {
  }

  lemma FourBytes(a: byte, b: byte, c: byte, d: byte)
    requires NumBytesInSequence(a) == 4 && IsCont(b) && IsCont(c) && IsCont(d)
    requires Acceptable(CodePoint4(a, b, c, d), 4)
    ensures Encode(CodePoint4(a, b, c, d)) == [a, b, c, d]
  {
    Undigits(a % 8, b % 64, c % 64, d % 64);
  }

  lemma Undigits(w: nat, x: nat, y: nat, z: nat)
    requires x < 64 && y < 64 && z < 64
    ensures var cp := ((w * 64 + x) * 64 + y) * 64 + z;
            cp % 64 == z && cp / 64 % 64 == y && cp / 4096 % 64 == x && cp / 262144 == w
  {
    assert ((w * 64 + x) * 64 + y) * 64 + z == w * 262144 + x * 4096 + y * 64 + z;
  }

  /** Where the checker takes a sequence, the encoding of some code point stands. */
  lemma VerifyFindsEncoding(s: seq<byte>, i: nat) returns (cp: nat)
    requires Terminated(s) && i < |s| && VerifySequence(s, i).Some?
    ensures Scalar(cp) && Has(s, i, Encode(cp)) && VerifySequence(s, i).value == |Encode(cp)|
  {
    var n := VerifySequence(s, i).value;
    if n == 1 {
      cp := s[i];
      assert s[i..i + 1] == [s[i]];
    } else if n == 2 {
      TwoBytes(s[i], s[i + 1]);
      cp := CodePoint2(s[i], s[i + 1]);
      assert s[i..i + 2] == [s[i], s[i + 1]];
    } else if n == 3 {
      ThreeBytes(s[i], s[i + 1], s[i + 2]);
      cp := CodePoint3(s[i], s[i + 1], s[i + 2]);
      assert s[i..i + 3] == [s[i], s[i + 1], s[i + 2]];
    } else {
      FourBytes(s[i], s[i + 1], s[i + 2], s[i + 3]);
      cp := CodePoint4(s[i], s[i + 1], s[i + 2], s[i + 3]);
      assert s[i..i + 4] == [s[i], s[i + 1], s[i + 2], s[i + 3]];
    }
  }

  lemma SixBitDigits(cp: nat)
    requires cp <= 0x10FFFF
    ensures cp / 64 * 64 + cp % 64 == cp
    ensures cp / 4096 * 64 + cp / 64 % 64 == cp / 64
    ensures cp / 262144 * 64 + cp / 4096 % 64 == cp / 4096
  {
  }

  lemma TwoVerify(s: seq<byte>, i: nat, cp: nat)
    requires Terminated(s) && i + 2 < |s| && 0x80 <= cp < 0x800
    requires s[i] == Encode(cp)[0] && s[i + 1] == Encode(cp)[1]
    ensures VerifySequence(s, i) == Some(2)
  {
    assert CodePoint2(s[i], s[i + 1]) == cp;
  }

  lemma ThreeVerify(s: seq<byte>, i: nat, cp: nat)
    requires Terminated(s) && i + 3 < |s| && 0x800 <= cp < 0x10000 && Scalar(cp)
    requires s[i] == Encode(cp)[0] && s[i + 1] == Encode(cp)[1] && s[i + 2] == Encode(cp)[2]
    ensures VerifySequence(s, i) == Some(3)
  {
    SixBitDigits(cp);
    assert CodePoint3(s[i], s[i + 1], s[i + 2]) == cp;
  }

  lemma FourVerify(s: seq<byte>, i: nat, cp: nat)
    requires Terminated(s) && i + 4 < |s| && 0x10000 <= cp <= 0x10FFFF
    requires s[i] == Encode(cp)[0] && s[i + 1] == Encode(cp)[1] && s[i + 2] == Encode(cp)[2]
              && s[i + 3] == Encode(cp)[3]
    ensures VerifySequence(s, i) == Some(4)
  {
    FourDigits(cp);
  }

  /** The checker takes every encoding. */
  lemma EncodingVerifies(s: seq<byte>, i: nat, cp: nat)
    requires Terminated(s) && i < |s| && Scalar(cp) && Has(s, i, Encode(cp))
    ensures VerifySequence(s, i) == Some(|Encode(cp)|)
  {
    var e := Encode(cp);
    forall k | 0 <= k < |e| ensures s[i + k] == e[k] {
      HasAt(s, i, e, k);
    }
    assert e[|e| - 1] != 0 || |e| == 1;
    if 0x80 <= cp < 0x800 {
      TwoVerify(s, i, cp);
    } else if 0x800 <= cp < 0x10000 {
      ThreeVerify(s, i, cp);
    } else if cp >= 0x10000 {
      FourVerify(s, i, cp);
    }
  }

  lemma FourDigits(cp: nat)
    requires 0x10000 <= cp <= 0x10FFFF
    ensures var e := Encode(cp);
            NumBytesInSequence(e[0]) == 4 && CodePoint4(e[0], e[1], e[2], e[3]) == cp
  {
    var a, z := cp / 64, cp % 64;
    var b, y := a / 64, a % 64;
    var w, x := b / 64, b % 64;
    FourParts(cp, w, x, y, z);
  }

  lemma FourParts(cp: nat, w: nat, x: nat, y: nat, z: nat)
    requires 0x10000 <= cp <= 0x10FFFF && x < 64 && y < 64 && z < 64
    requires cp == ((w * 64 + x) * 64 + y) * 64 + z
    ensures var e := Encode(cp);
            NumBytesInSequence(e[0]) == 4 && CodePoint4(e[0], e[1], e[2], e[3]) == cp
  {
    Undigits(w, x, y, z);
    FourPayloads(w, x, y, z);
    assert Encode(cp) == [0xF0 + w, 0x80 + x, 0x80 + y, 0x80 + z];
  }

  lemma FourPayloads(w: nat, x: nat, y: nat, z: nat)
    requires w <= 4 && x < 64 && y < 64 && z < 64
    ensures NumBytesInSequence(0xF0 + w) == 4
    ensures CodePoint4(0xF0 + w, 0x80 + x, 0x80 + y, 0x80 + z) == ((w * 64 + x) * 64 + y) * 64 + z
  {
  }

  /** Cutting a well-formed string after its first encoding. */
  lemma FirstEncoding(t: seq<byte>, cps: seq<nat>)
    requires Scalars(cps) && cps != [] && t == EncodeAll(cps)
    ensures |Encode(cps[0])| <= |t| && t[..|Encode(cps[0])|] == Encode(cps[0])
    ensures t[|Encode(cps[0])|..] == EncodeAll(cps[1..])
    ensures WellFormed(t[|Encode(cps[0])|..])
  {
    assert Scalars(cps[1..]);
  }

  lemma PutFirst(cp: nat, rest: seq<byte>)
    requires Scalar(cp) && WellFormed(rest)
    ensures WellFormed(Encode(cp) + rest)
  {
    var cps: seq<nat> :| Scalars(cps) && rest == EncodeAll(cps);
    assert ([cp] + cps)[1..] == cps;
    assert EncodeAll([cp] + cps) == Encode(cp) + rest;
  }

  lemma {:induction false} Concat(a: seq<byte>, b: seq<byte>)
    requires WellFormed(a) && WellFormed(b)
    ensures WellFormed(a + b)
    decreases |a|
  {
    if a == [] {
      assert a + b == b;
    } else {
      var cps: seq<nat> :| Scalars(cps) && a == EncodeAll(cps);
      FirstEncoding(a, cps);
      var e, rest := Encode(cps[0]), a[|Encode(cps[0])|..];
      assert a == e + rest;
      Concat(rest, b);
      PutFirst(cps[0], rest + b);
      Regroup(e, rest, b);
    }
  }

  lemma {:induction false} AsciiWellFormed(t: seq<byte>)
    requires forall k :: 0 <= k < |t| ==> t[k] < 128
    ensures WellFormed(t)
    decreases |t|
  {
    if t == [] {
      assert EncodeAll([]) == [];
    } else {
      AsciiWellFormed(t[1..]);
      PutFirst(t[0], t[1..]);
      assert Encode(t[0]) + t[1..] == t;
    }
  }

  /** A well-formed string starts with a sequence that the checker takes, and goes on well-formed. */
  lemma FirstVerifies(s: seq<byte>, i: nat, end: nat) returns (n: nat)
    requires Terminated(s) && i < end <= |s| && WellFormed(s[i..end])
    ensures VerifySequence(s, i) == Some(n)
    ensures 0 < n <= end - i && WellFormed(s[i + n..end])
  {
    var cps: seq<nat> :| Scalars(cps) && s[i..end] == EncodeAll(cps);
    var e := Encode(cps[0]);
    FirstEncoding(s[i..end], cps);
    SliceHas(s, i, end, e);
    EncodingVerifies(s, i, cps[0]);
    n := |e|;
  }

  lemma SequenceWellFormed(s: seq<byte>, i: nat, n: nat)
    requires Terminated(s) && i < |s| && VerifySequence(s, i) == Some(n)
    ensures i + n <= |s| && WellFormed(s[i..i + n])
  {
    var cp := VerifyFindsEncoding(s, i);
    assert EncodeAll([]) == [];
    PutFirst(cp, []);
    assert Encode(cp) + [] == Encode(cp);
  }

  lemma SlicesWellFormed(s: seq<byte>, i: nat, mid: nat, end: nat)
    requires i <= mid <= end <= |s| && WellFormed(s[i..mid]) && WellFormed(s[mid..end])
    ensures WellFormed(s[i..end])
  {
    Concat(s[i..mid], s[mid..end]);
    assert s[i..end] == s[i..mid] + s[mid..end];
  }

  lemma SliceHas(s: seq<byte>, i: nat, end: nat, x: seq<byte>)
    requires i <= end <= |s| && |x| <= end - i && s[i..end][..|x|] == x
    ensures Has(s, i, x) && s[i..end][|x|..] == s[i + |x|..end]
  {
    assert s[i..i + |x|] == s[i..end][..|x|];
  }

  /** Some well-formed string starts at `i` and ends at `len` or behind it. */
  ghost predicate Completes(s: seq<byte>, i: nat, len: nat) {
    exists end: nat :: i <= end <= |s| && len <= end && WellFormed(s[i..end])
  }

  /** A sequence that the checker takes starts before `len` and ends behind it. */
  ghost predicate CutsSequence(s: seq<byte>, len: nat)
    requires Terminated(s) && len <= |s|
  {
    exists i: nat :: i < len && VerifySequence(s, i).Some? && len < i + VerifySequence(s, i).value
  }

  lemma CompletesNext(s: seq<byte>, i: nat, len: nat, n: nat)
    requires Terminated(s) && i < len <= |s| && VerifySequence(s, i) == Some(n)
    ensures Completes(s, i, len) <==> Completes(s, i + n, len)
  {
    if Completes(s, i, len) {
      var end: nat :| i <= end <= |s| && len <= end && WellFormed(s[i..end]);
      var m := FirstVerifies(s, i, end);
    }
    if Completes(s, i + n, len) {
      var end: nat :| i + n <= end <= |s| && len <= end && WellFormed(s[i + n..end]);
      SequenceWellFormed(s, i, n);
      SlicesWellFormed(s, i, i + n, end);
    }
  }

  lemma CompletesTakes(s: seq<byte>, i: nat, len: nat)
    requires Terminated(s) && i < len <= |s| && Completes(s, i, len)
    ensures VerifySequence(s, i).Some?
  {
    var end: nat :| i <= end <= |s| && len <= end && WellFormed(s[i..end]);
    var n := FirstVerifies(s, i, end);
  }

  /**
   * `is_valid_utf8`, for any length inside a buffer with a NUL at its end. The last sequence may be completed by bytes
   * behind the length, so the text is accepted exactly when it can be completed from there.
   */
  method IsValidUtf8(s: seq<byte>, len: nat) returns (valid: bool)
    requires Terminated(s) && len <= |s|
    ensures valid <==> Completes(s, 0, len)
  {
    var i := 0;
    while i < len
      invariant i <= |s|
      invariant Completes(s, 0, len) <==> Completes(s, i, len)
    {
      var n := VerifySequence(s, i);
      if n.None? {
        if Completes(s, i, len) {
          CompletesTakes(s, i, len);
        }
        return false;
      }
      CompletesNext(s, i, len, n.value);
      ghost var cp := VerifyFindsEncoding(s, i);
      i := i + n.value;
    }
    assert s[i..i] == EncodeAll([]);
    return true;
  }

  /** Sequences of a well-formed string do not overlap: none that starts inside it ends behind it. */
  lemma {:induction false} NoOverlap(s: seq<byte>, i: nat, len: nat, cut: nat)
    requires Terminated(s) && i <= cut < len <= |s| && WellFormed(s[i..len])
    requires VerifySequence(s, cut).Some?
    ensures cut + VerifySequence(s, cut).value <= len
    decreases len - i
  {
    var n := FirstVerifies(s, i, len);
    if i + n <= cut {
      NoOverlap(s, i + n, len, cut);
    } else {
      TailIsCont(s, i);
    }
  }

  lemma TailIsCont(s: seq<byte>, i: nat)
    requires Terminated(s) && i < |s| && VerifySequence(s, i).Some?
    ensures i + VerifySequence(s, i).value <= |s|
    ensures forall k :: i < k < i + VerifySequence(s, i).value ==> IsCont(s[k])
  {
  }

  lemma {:induction false} WholeUpTo(s: seq<byte>, i: nat, len: nat)
    requires Terminated(s) && i <= len <= |s| && Completes(s, i, len) && !CutsSequence(s, len)
    ensures WellFormed(s[i..len])
    decreases len - i
  {
    if i == len {
      assert s[i..len] == EncodeAll([]);
    } else {
      CompletesTakes(s, i, len);
      var n := VerifySequence(s, i).value;
      CompletesNext(s, i, len, n);
      assert i + n <= len;
      SequenceWellFormed(s, i, n);
      WholeUpTo(s, i + n, len);
      SlicesWellFormed(s, i, i + n, len);
    }
  }

  /** What the checker accepts is well-formed exactly when the length does not cut a sequence in two. */
  lemma WellFormedExactly(s: seq<byte>, len: nat)
    requires Terminated(s) && len <= |s|
    ensures WellFormed(s[..len]) <==> Completes(s, 0, len) && !CutsSequence(s, len)
  {
    assert s[0..len] == s[..len];
    if WellFormed(s[..len]) && CutsSequence(s, len) {
      var i: nat :| i < len && VerifySequence(s, i).Some? && len < i + VerifySequence(s, i).value;
      NoOverlap(s, 0, len, i);
    }
    if Completes(s, 0, len) && !CutsSequence(s, len) {
      WholeUpTo(s, 0, len);
    }
  }

  /** A length at which no continuation byte stands, such as that of a whole C string, cuts nothing. */
  lemma NothingCut(s: seq<byte>, len: nat)
    requires Terminated(s) && len < |s| && !IsCont(s[len])
    ensures !CutsSequence(s, len)
    ensures Completes(s, 0, len) <==> WellFormed(s[..len])
  {
    forall i: nat | i < len && VerifySequence(s, i).Some?
      ensures i + VerifySequence(s, i).value <= len
    {
      TailIsCont(s, i);
    }
    WellFormedExactly(s, len);
  }

  /** The first byte of the Euro sign alone is accepted when the other two stand behind it. */
  lemma CutExample()
    ensures var s := [0xE2, 0x82, 0xAC, 0];
            Terminated(s) && Completes(s, 0, 1) && !WellFormed(s[..1])
  {
    var s: seq<byte> := [0xE2, 0x82, 0xAC, 0];
    assert VerifySequence(s, 0) == Some(3);
    CompletesNext(s, 0, 1, 3);
    assert s[3..3] == EncodeAll([]);
    WellFormedExactly(s, 1);
  }
}
