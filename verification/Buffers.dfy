/** The output cursor of the serializer: text goes into a byte buffer, or nowhere when only measuring. */
module Buffers {
  import opened Bytes

  /** `after` is `before` with the bytes of `x` stored from `off` on; the byte behind them may have changed too
      (it takes the NUL), and no other. */
  ghost predicate Wrote(before: seq<byte>, after: seq<byte>, off: nat, x: seq<byte>)
    decreases |x|
  {
    && off + |x| < |before|
    && if x == [] then |after| == |before| && after == before[off := after[off]]
       else Wrote(before[off := x[0]], after, off + 1, x[1..])
  }

  /** The same, said by slices. */
  lemma {:induction false} WroteSlices(before: seq<byte>, after: seq<byte>, off: nat, x: seq<byte>)
    ensures Wrote(before, after, off, x) <==>
            && off + |x| < |before| && |after| == |before| && after[..off] == before[..off]
            && after[off..off + |x|] == x && after[off + |x| + 1..] == before[off + |x| + 1..]
    decreases |x|
  {
    if off + |x| < |before| {
      if x == [] {
        if |after| == |before| && after[..off] == before[..off] && after[off + 1..] == before[off + 1..] {
          assert after == after[..off] + [after[off]] + after[off + 1..];
          assert before[off := after[off]] == before[..off] + [after[off]] + before[off + 1..];
        }
      } else {
        var mid := before[off := x[0]];
        WroteSlices(mid, after, off + 1, x[1..]);
        assert mid[..off] == before[..off] && mid[off + 1..] == before[off + 1..];
        assert mid[..off + 1] == before[..off] + [x[0]];
        assert mid[off + |x| + 1..] == before[off + |x| + 1..];
        if |after| == |before| {
          assert after[..off + 1] == after[..off] + [after[off]];
          assert after[off..off + |x|] == [after[off]] + after[off + 1..off + |x|];
          assert x == [x[0]] + x[1..];
        }
      }
    }
  }

  lemma WroteTwice(a: seq<byte>, b: seq<byte>, c: seq<byte>, off: nat, x: seq<byte>, next: nat, y: seq<byte>)
    requires Wrote(a, b, off, x) && Wrote(b, c, next, y) && next == off + |x|
    ensures Wrote(a, c, off, x + y)
  {
    WroteSlices(a, b, off, x);
    WroteSlices(b, c, next, y);
    WroteSlices(a, c, off, x + y);
    assert c[..off] == c[..next][..off];
    assert c[off..next] == c[..next][off..] == b[..next][off..] == x;
    assert c[off..off + |x + y|] == c[off..next] + c[next..next + |y|];
    assert c[next + |y| + 1..] == b[next + |y| + 1..] == b[next + 1..][|y|..] == a[next + 1..][|y|..];
  }

  /** `buf`, which moves on as text is written, and `written_total`. */
  class Output {
    const buf: array?<byte>
    const start: nat
    ghost const before: seq<byte>
    ghost var text: seq<byte>
    var written: nat

    ghost predicate Valid()
      reads this, buf
    {
      && written == |text|
      && (buf != null ==> Wrote(before, buf[..], start, text))
    }

    /** `n` more bytes and a NUL fit into the buffer. */
    ghost predicate Room(n: nat)
      reads this
    {
      buf != null ==> start + written + n < buf.Length
    }

    ghost predicate Terminated()
      reads this, buf
    {
      buf != null ==> start + written < buf.Length && buf[start + written] == 0
    }

    constructor (buf: array?<byte>, start: nat)
      requires buf != null ==> start < buf.Length
      ensures Valid() && text == []
      ensures this.buf == buf && this.start == start && before == if buf == null then [] else buf[..]
    {
      this.buf := buf;
      this.start := start;
      this.before := if buf == null then [] else buf[..];
      this.text := [];
      this.written := 0;
    }

    /** APPEND_STRING: the bytes and a NUL behind them. */
    method Append(x: seq<byte>)
      requires Valid() && Room(|x|)
      modifies this, buf
      ensures Valid() && text == old(text) + x && Terminated()
    {
      if buf != null {
        ghost var b, next := buf[..], start + written;
        var k := 0;
        while k < |x|
          invariant k <= |x| && written == old(written) && text == old(text)
          invariant buf[next..next + k] == x[..k]
          invariant buf[..next] == b[..next] && buf[next + |x| + 1..] == b[next + |x| + 1..]
        {
          buf[start + written + k] := x[k];
          k := k + 1;
        }
        buf[start + written + |x|] := 0;
        assert buf[next..next + |x|] == x;
        WroteSlices(b, buf[..], next, x);
        WroteTwice(before, b, buf[..], start, text, next, x);
      }
      written := written + |x|;
      text := text + x;
    }

    /** A byte without a NUL behind it. */
    method AppendByte(c: byte)
      requires Valid() && Room(1)
      modifies this, buf
      ensures Valid() && text == old(text) + [c]
    {
      if buf != null {
        ghost var b, next := buf[..], start + written;
        buf[start + written] := c;
        WroteSlices(b, buf[..], next, [c]);
        WroteTwice(before, b, buf[..], start, text, next, [c]);
      }
      written := written + 1;
      text := text + [c];
    }
  }
}
