/** The recursive-descent parser of include/parson.c:924-1121 as cursor-moving methods. */
module JsonParser {
  import opened AssocLists
  import opened Bytes
  import opened JsonObjects
  import Text = JsonText
  import opened JsonTrees
  import opened Options
  import opened StringLaws
  import opened Strings

  method SkipWhitespaces(s: seq<byte>, i: nat) returns (j: nat)
    requires Terminated(s) && i < |s|
    ensures j == Text.SkipWs(s, i)
  {
    j := i;
    while IsSpace(s[j])
      invariant j < |s| && Text.SkipWs(s, i) == Text.SkipWs(s, j)
      decreases |s| - j
    {
      j := j + 1;
    }
  }

  method ParseValue(hash: CString -> nat, lib: Libc, s: seq<byte>, i: nat, nesting: nat)
        returns (r: Option<Text.Parsed>)
    requires Terminated(s) && i < |s|
    ensures r == Text.ParseValue(lib, s, i, nesting)
    decreases |s| - i, 2
  {
    if nesting > Text.MAX_NESTING {
      return None;
    }
    var j := SkipWhitespaces(s, i);
    var c := s[j];
    if c == Text.OPEN_BRACE {
      r := ParseObject(hash, lib, s, j, nesting + 1);
    } else if c == Text.OPEN_BRACKET {
      r := ParseArray(hash, lib, s, j, nesting + 1);
    } else if c == QUOTE {
      var d := GetQuotedString(s, j);
      r := if d.None? then None else Some(Text.Parsed(Str(d.value.bytes), d.value.next));
    } else if c == 'f' as int || c == 't' as int {
      r := Text.ParseToken(s, j, Text.TrueToken(), Boolean(true));
      if r.None? {
        r := Text.ParseToken(s, j, Text.FalseToken(), Boolean(false));
      }
    } else if c == '-' as int || IsDigit(c) {
      r := Text.ParseNumber(lib, s, j);
    } else if c == 'n' as int {
      r := Text.ParseToken(s, j, Text.NullToken(), Null);
    } else {
      r := None;
    }
  }

  method ParseArray(hash: CString -> nat, lib: Libc, s: seq<byte>, i: nat, nesting: nat)
        returns (r: Option<Text.Parsed>)
    requires Terminated(s) && i < |s| && s[i] == Text.OPEN_BRACKET
    ensures r == Text.ParseArray(lib, s, i, nesting)
    decreases |s| - i, 1
  {
    var p := SkipWhitespaces(s, i + 1);
    if s[p] == Text.CLOSE_BRACKET {
      return Some(Text.Parsed(Array([]), p + 1));
    }
    var items := [];
    while s[p] != 0
      invariant i < p < |s|
      invariant Text.ParseArray(lib, s, i, nesting) == Text.ParseItems(lib, s, p, nesting, items)
      decreases |s| - p
    {
      var v := ParseValue(hash, lib, s, p, nesting);
      if v.None? {
        return None;
      }
      items := items + [v.value.value];
      var end := AfterElement(s, v.value.next, Text.CLOSE_BRACKET);
      match end {
        case Broken => return None;
        case Closed(next) => return Some(Text.Parsed(Array(items), next));
        case More(next) => p := next;
      }
    }
    return None;
  }

  method AfterElement(s: seq<byte>, i: nat, close: byte) returns (e: Text.ListEnd)
    requires Terminated(s) && i < |s| && close != 0
    ensures e == Text.AfterElement(s, i, close)
  {
    var j := SkipWhitespaces(s, i);
    if s[j] != Text.COMMA {
      return if s[j] == close then Text.Closed(j + 1) else Text.Broken;
    }
    j := SkipWhitespaces(s, j + 1);
    return if s[j] == close then Text.Closed(j + 1) else Text.More(j);
  }

  /** `get_quoted_string`, the NUL test and the colon. */
  method ParseKey(s: seq<byte>, i: nat) returns (d: Option<Decoded>)
    requires Terminated(s) && i < |s|
    ensures d == Text.ParseKey(s, i)
  {
    d := GetQuotedString(s, i);
    if d.None? || 0 in d.value.bytes {
      return None;
    }
    var j := SkipWhitespaces(s, d.value.next);
    return if s[j] != Text.COLON then None else Some(Decoded(d.value.bytes, j + 1));
  }

  method ParseMember(hash: CString -> nat, lib: Libc, s: seq<byte>, i: nat, nesting: nat)
      returns (m: Option<Text.ParsedMember>)
    requires Terminated(s) && i < |s|
    ensures m == Text.ParseMember(lib, s, i, nesting)
    decreases |s| - i, 2
  {
    var key := ParseKey(s, i);
    if key.None? {
      return None;
    }
    var v := ParseValue(hash, lib, s, key.value.next, nesting);
    if v.None? {
      return None;
    }
    return Some(Text.ParsedMember(Member(key.value.bytes, v.value.value), v.value.next));
  }

  /** Parses one member and adds it; a name that the object has already is an error. */
  method AddMember(hash: CString -> nat, lib: Libc, s: seq<byte>, i: nat, nesting: nat, obj: JsonObject<Json>)
      returns (next: Option<nat>)
    requires Terminated(s) && i < |s| && obj.Valid()
    modifies obj.Repr
    ensures obj.Valid() && fresh(obj.Repr - old(obj.Repr))
    ensures var m := Text.ParseMember(lib, s, i, nesting);
            if m.None? || HasKey(old(obj.Members()), m.value.member.key) then next == None
            else next == Some(m.value.next) && obj.Members() == old(obj.Members()) + [m.value.member]
    decreases |s| - i, 3
  {
    var m := ParseMember(hash, lib, s, i, nesting);
    assert obj.Valid() && obj.Repr == old(obj.Repr) && obj.Members() == old(obj.Members());
    if m.None? {
      return None;
    }
    var added := obj.Add(m.value.member.key, m.value.member.value);
    return if added then Some(m.value.next) else None;
  }

  /** One turn of the member loop: a new member, and what follows it. */
  method MemberTurn(hash: CString -> nat, lib: Libc, s: seq<byte>, i: nat, nesting: nat, obj: JsonObject<Json>)
      returns (e: Text.ListEnd)
    requires Terminated(s) && i < |s| && obj.Valid()
    modifies obj.Repr
    ensures obj.Valid() && fresh(obj.Repr - old(obj.Repr)) && (!e.Broken? ==> i < e.next < |s|)
    ensures s[i] != 0 ==>
              Text.ParseMembers(lib, s, i, nesting, old(obj.Members()))
              == match e
                 case Broken => None
                 case Closed(next) => Some(Text.Parsed(Object(obj.Members()), next))
                 case More(next) => Text.ParseMembers(lib, s, next, nesting, obj.Members())
    decreases |s| - i, 4
  {
    var added := AddMember(hash, lib, s, i, nesting, obj);
    if added.None? {
      return Text.Broken;
    }
    e := AfterElement(s, added.value, Text.CLOSE_BRACE);
  }

  /** The member loop: fills the object, and gives the cursor after the closing brace. */
  method FillObject(hash: CString -> nat, lib: Libc, s: seq<byte>, i: nat, nesting: nat, obj: JsonObject<Json>)
      returns (end: Option<nat>)
    requires Terminated(s) && i < |s| && obj.Valid() && obj.Members() == []
    modifies obj.Repr
    ensures var r := Text.ParseMembers(lib, s, i, nesting, []);
            if r.None? then end == None
            else end == Some(r.value.next) && obj.Valid() && r.value.value == Object(obj.Members())
    decreases |s| - i, 5
  {
    var p := i;
    while s[p] != 0
      invariant i <= p < |s| && obj.Valid() && fresh(obj.Repr - old(obj.Repr))
      invariant Text.ParseMembers(lib, s, i, nesting, []) == Text.ParseMembers(lib, s, p, nesting, obj.Members())
      decreases |s| - p
    {
      var after := MemberTurn(hash, lib, s, p, nesting, obj);
      match after {
        case Broken => return None;
        case Closed(next) => return Some(next);
        case More(next) => p := next;
      }
    }
    return None;
  }

  method ParseObject(hash: CString -> nat, lib: Libc, s: seq<byte>, i: nat, nesting: nat)
        returns (r: Option<Text.Parsed>)
    requires Terminated(s) && i < |s| && s[i] == Text.OPEN_BRACE
    ensures r == Text.ParseObject(lib, s, i, nesting)
    decreases |s| - i, 1
  {
    var obj := new JsonObject<Json>(hash, 0);
    var p := SkipWhitespaces(s, i + 1);
    if s[p] == Text.CLOSE_BRACE {
      return Some(Text.Parsed(Object([]), p + 1));
    }
    var end := FillObject(hash, lib, s, p, nesting, obj);
    if end.None? {
      return None;
    }
    var members := MembersOf(obj);
    return Some(Text.Parsed(Object(members), end.value));
  }

  /** The members of a finished object, read off by position. */
  method MembersOf(obj: JsonObject<Json>) returns (ms: seq<Member<Json>>)
    requires obj.Valid()
    ensures ms == obj.Members()
  {
    ms := [];
    var i := 0;
    while i < obj.count
      invariant i <= obj.count && ms == obj.Members()[..i]
    {
      var name := obj.GetName(i);
      var value := obj.GetValueAt(i);
      ms := ms + [Member(name.value, value.value)];
      i := i + 1;
    }
  }

  method ParseString(hash: CString -> nat, lib: Libc, s: seq<byte>) returns (r: Option<Text.Parsed>)
    requires Terminated(s)
    ensures r == Text.ParseString(lib, s)
  {
    var start := 0;
    if s[0] == 0xEF && s[1] == 0xBB && s[2] == 0xBF {
      start := 3;
    }
    r := ParseValue(hash, lib, s, start, 0);
  }
}
