/** The comment stripper of include/parson.c:239-272, which works in place on a NUL-terminated buffer. */
module Comments {
  import opened Bytes
  import opened JsonText
  import opened Options
  import opened Strings

  lemma StartsWithFirst(s: seq<byte>, i: nat, token: CString)
    requires i < |s| && token != []
    ensures StartsWith(s, i, token) ==> s[i] == token[0]
  {
    if StartsWith(s, i, token) {
      assert s[i..i + |token|][0] == token[0];
    }
  }

  lemma TokenInside(s: seq<byte>, i: nat, token: CString)
    requires Terminated(s) && i < |s| && StartsWith(s, i, token)
    ensures i + |token| < |s| && forall k :: i <= k < i + |token| ==> s[k] != 0
  {
    forall k | i <= k < i + |token| ensures s[k] != 0 {
      assert s[k] == s[i..i + |token|][k - i];
    }
  }

  /** `strstr` from `i` on. */
  function Strstr(s: seq<byte>, i: nat, token: CString): (p: Option<nat>)
    requires Terminated(s) && i < |s|
    ensures p.Some? ==> i <= p.value < |s| && StartsWith(s, p.value, token) && p.value + |token| < |s|
    ensures p.Some? ==> 0 !in s[i..p.value + |token|]
    decreases |s| - i
  {
    if StartsWith(s, i, token) then
      TokenInside(s, i, token);
      Some(i)
    else if s[i] == 0 then None
    else
      var p := Strstr(s, i + 1, token);
      assert p.Some? ==> s[i..p.value + |token|] == [s[i]] + s[i + 1..p.value + |token|];
      p
  }

  /** `s` with spaces from `a` to `b`. */
  function Blank(s: seq<byte>, a: nat, b: nat): (r: seq<byte>)
    requires a <= b <= |s|
    ensures |r| == |s|
    decreases b - a
  {
    if a == b then s else Blank(s[a := SPACE], a + 1, b)
  }

  lemma {:induction false} BlankAt(s: seq<byte>, a: nat, b: nat)
    requires a <= b <= |s|
    ensures forall k :: 0 <= k < |s| ==> Blank(s, a, b)[k] == if a <= k < b then SPACE else s[k]
    decreases b - a
  {
    if a < b {
      BlankAt(s[a := SPACE], a + 1, b);
    }
  }

  /** Only spaces were written between `s` and `r`, over bytes that were not NUL and not before `i`. */
  ghost predicate OnlyBlanks(s: seq<byte>, r: seq<byte>, i: nat) {
    && |r| == |s|
    && forall k :: 0 <= k < |s| ==> r[k] == s[k] || (i <= k && r[k] == SPACE && s[k] != 0)
  }

  /** The text after a comment was blanked out, and the position after the comment unless it has no end. */
  datatype Erased = Erased(text: seq<byte>, next: Option<nat>)

  /** The comment at `i`. */
  function Erase(s: seq<byte>, i: nat, open: CString, close: CString): (e: Erased)
    requires Terminated(s) && i < |s| && StartsWith(s, i, open) && open != []
    ensures OnlyBlanks(s, e.text, i) && Terminated(e.text)
    ensures e.next.Some? ==> i < e.next.value < |s|
  {
    var from := i + |open|;
    TokenInside(s, i, open);
    BlankAt(s, i, from);
    var begun := Blank(s, i, from);
    var p := Strstr(begun, from, close);
    if p.None? then Erased(begun, None)
    else
      var to := p.value + |close|;
      assert forall k :: from <= k < to ==> begun[k] == begun[from..to][k - from];
      BlankAt(begun, from, to);
      Erased(Blank(begun, from, to), Some(to))
  }

  lemma EraseCase(s: seq<byte>, i: nat, from: nat, begun: seq<byte>, p: nat, open: CString, close: CString)
    requires Terminated(s) && i < |s| && open != [] && StartsWith(s, i, open) && from == i + |open| < |s|
    requires begun == Blank(s, i, from) && Terminated(begun)
    requires Strstr(begun, from, close) == Some(p)
    ensures from <= p && p + |close| < |s|
    ensures Erase(s, i, open, close) == Erased(Blank(begun, from, p + |close|), Some(p + |close|))
  {
  }

  lemma EraseOpenEnd(s: seq<byte>, i: nat, from: nat, begun: seq<byte>, open: CString, close: CString)
    requires Terminated(s) && i < |s| && open != [] && StartsWith(s, i, open) && from == i + |open| < |s|
    requires begun == Blank(s, i, from) && Terminated(begun) && Strstr(begun, from, close) == None
    ensures Erase(s, i, open, close) == Erased(begun, None)
  {
  }

  lemma BegunTerminated(s: seq<byte>, i: nat, open: CString)
    requires Terminated(s) && i < |s| && StartsWith(s, i, open)
    ensures i + |open| < |s| && Terminated(Blank(s, i, i + |open|))
  {
    TokenInside(s, i, open);
    BlankAt(s, i, i + |open|);
  }

  /** What becomes of `s` when the scan stands at `i`: a comment outside a string is blanked out, an unclosed one loses
      its start token and ends the scan. */
  function Strip(s: seq<byte>, i: nat, inString: bool, escaped: bool, open: CString, close: CString): (r: seq<byte>)
    requires Terminated(s) && i < |s| && open != []
    decreases |s| - i
  {
    if s[i] == 0 then s
    else if s[i] == BACKSLASH && !escaped then Strip(s, i + 1, inString, true, open, close)
    else if s[i] == QUOTE && !escaped then Strip(s, i + 1, !inString, false, open, close)
    else if !inString && StartsWith(s, i, open) then
      var e := Erase(s, i, open, close);
      if e.next.None? then e.text else Strip(e.text, e.next.value, inString, false, open, close)
    else Strip(s, i + 1, inString, false, open, close)
  }

  method BlankOut(a: array<byte>, from: nat, to: nat)
    requires from <= to <= a.Length
    modifies a
    ensures a[..] == Blank(old(a[..]), from, to)
  {
    var i := from;
    while i < to
      invariant from <= i <= to && Blank(a[..], i, to) == Blank(old(a[..]), from, to)
    {
      ghost var before := a[..];
      a[i] := SPACE;
      assert a[..] == before[i := SPACE];
      i := i + 1;
    }
  }

  /** What blanking out from behind the start token to the end of the end token makes of `s`. */
  ghost predicate RestErased(s: seq<byte>, from: nat, close: CString, r: seq<byte>, next: Option<nat>)
    requires Terminated(s) && from < |s|
  {
    var p := Strstr(s, from, close);
    if p.None? then next == None && r == s
    else next == Some(p.value + |close|) && r == Blank(s, from, p.value + |close|)
  }

  lemma EraseParts(s: seq<byte>, i: nat, from: nat, begun: seq<byte>, r: seq<byte>, next: Option<nat>, open: CString,
                   close: CString)
    requires Terminated(s) && i < |s| && open != [] && StartsWith(s, i, open) && from == i + |open| < |s|
    requires begun == Blank(s, i, from) && Terminated(begun) && RestErased(begun, from, close, r, next)
    ensures Erase(s, i, open, close) == Erased(r, next)
  {
    var p := Strstr(begun, from, close);
    if p.None? {
      EraseOpenEnd(s, i, from, begun, open, close);
    } else {
      EraseCase(s, i, from, begun, p.value, open, close);
    }
  }

  /** From behind the start token to the end of the end token. */
  method EraseRest(a: array<byte>, from: nat, close: CString) returns (next: Option<nat>)
    requires Terminated(a[..]) && from < a.Length
    modifies a
    ensures RestErased(old(a[..]), from, close, a[..], next)
  {
    var p := Strstr(a[..], from, close);
    if p.None? {
      return None;
    }
    BlankOut(a, from, p.value + |close|);
    return Some(p.value + |close|);
  }

  method EraseComment(a: array<byte>, i: nat, open: CString, close: CString) returns (next: Option<nat>)
    requires Terminated(a[..]) && i < a.Length && StartsWith(a[..], i, open) && open != []
    modifies a
    ensures Erase(old(a[..]), i, open, close) == Erased(a[..], next)
  {
    ghost var s, from := a[..], i + |open|;
    BegunTerminated(s, i, open);
    BlankOut(a, i, i + |open|);
    ghost var begun := a[..];
    next := EraseRest(a, i + |open|, close);
    EraseParts(s, i, from, begun, a[..], next, open, close);
  }

  /** `remove_comments` */
  method RemoveComments(a: array<byte>, open: CString, close: CString)
    requires Terminated(a[..])
    modifies a
    ensures a[..] == if open == [] || close == [] then old(a[..]) else Strip(old(a[..]), 0, false, false, open, close)
  {
    if |open| == 0 || |close| == 0 {
      return;
    }
    var i, inString, escaped := 0, false, false;
    while a[i] != 0
      invariant i < a.Length && Terminated(a[..])
      invariant Strip(a[..], i, inString, escaped, open, close) == Strip(old(a[..]), 0, false, false, open, close)
      decreases a.Length - i
    {
      if a[i] == BACKSLASH && !escaped {
        escaped := true;
        i := i + 1;
        continue;
      } else if a[i] == QUOTE && !escaped {
        inString := !inString;
      } else if !inString && StartsWith(a[..], i, open) {
        var next := EraseComment(a, i, open, close);
        if next.None? {
          return;
        }
        i := next.value - 1;
      }
      escaped := false;
      i := i + 1;
    }
  }

  /** The pass keeps the length, the terminating NUL included, and changes bytes into spaces only. */
  lemma {:induction false} StripOnlyBlanks(s: seq<byte>, i: nat, inString: bool, escaped: bool, open: CString,
          close: CString)
    requires Terminated(s) && i < |s| && open != []
    ensures OnlyBlanks(s, Strip(s, i, inString, escaped, open, close), i)
    decreases |s| - i
  {
    if s[i] == 0 {
    } else if s[i] == BACKSLASH && !escaped {
      StripOnlyBlanks(s, i + 1, inString, true, open, close);
    } else if s[i] == QUOTE && !escaped {
      StripOnlyBlanks(s, i + 1, !inString, false, open, close);
    } else if !inString && StartsWith(s, i, open) {
      var e := Erase(s, i, open, close);
      if e.next.Some? {
        StripOnlyBlanks(e.text, e.next.value, inString, false, open, close);
      }
    } else {
      StripOnlyBlanks(s, i + 1, inString, false, open, close);
    }
  }
}
