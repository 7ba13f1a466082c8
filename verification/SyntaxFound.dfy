/** The parser takes no other texts than those of the grammar. */
module SyntaxFound {
  import opened AssocLists
  import opened Bytes
  import JsonLaws
  import opened JsonSyntax
  import opened JsonText
  import opened JsonTrees
  import opened Options
  import opened ParserSteps
  import opened StringLaws
  import opened Strings
  import opened StringSpelling
  import opened SyntaxReads

  lemma {:induction false} WhiteFound(s: seq<byte>, i: nat)
    requires Terminated(s) && i < |s|
    ensures AllWhite(s[i..SkipWs(s, i)])
    decreases |s| - i
  {
    if IsSpace(s[i]) {
      WhiteFound(s, i + 1);
      assert s[i..SkipWs(s, i)] == [s[i]] + s[i + 1..SkipWs(s, i)];
    }
  }

  lemma Slices(s: seq<byte>, i: nat, j: nat, k: nat)
    requires i <= j <= k <= |s|
    ensures s[i..k] == s[i..j] + s[j..k]
  {
  }

  /** What the loops take behind the last element. */
  lemma EndFound(s: seq<byte>, q: nat, close: byte) returns (after: seq<byte>, end: seq<byte>)
    requires Terminated(s) && q < |s| && close != 0 && AfterElement(s, q, close).Closed?
    ensures AllWhite(after) && GoodEnd(end, false)
    ensures s[q..AfterElement(s, q, close).next] == after + (end + [close])
  {
    var j, next := SkipWs(s, q), AfterElement(s, q, close).next;
    after := s[q..j];
    WhiteFound(s, q);
    Slices(s, q, j, next);
    if s[j] == COMMA {
      var k := SkipWs(s, j + 1);
      WhiteFound(s, j + 1);
      end := [COMMA] + s[j + 1..k];
      assert end[1..] == s[j + 1..k];
      assert s[j..next] == [s[j]] + s[j + 1..k] + [s[k]];
    } else {
      end := [];
      assert s[j..next] == [s[j]];
      assert end + [close] == [close];
    }
  }

  /** What they take between two elements. */
  lemma CommaFound(s: seq<byte>, q: nat, close: byte) returns (after: seq<byte>, before: seq<byte>)
    requires Terminated(s) && q < |s| && close != 0 && AfterElement(s, q, close).More?
    ensures AllWhite(after) && AllWhite(before)
    ensures s[q..AfterElement(s, q, close).next] == after + ([COMMA] + before)
  {
    var j, k := SkipWs(s, q), AfterElement(s, q, close).next;
    after, before := s[q..j], s[j + 1..k];
    WhiteFound(s, q);
    WhiteFound(s, j + 1);
    Slices(s, q, j, k);
    assert s[j..k] == [s[j]] + s[j + 1..k];
  }

  /** The element loop takes elements of the grammar. */
  lemma {:induction false} ItemsFound(lib: Libc, s: seq<byte>, i: nat, nesting: nat, acc: seq<Json>)
      returns (es: seq<Element>, items: seq<Json>, end: seq<byte>)
    requires Terminated(s) && i < |s| && ParseItems(lib, s, i, nesting, acc).Some?
    ensures es != [] && ElementsDenote(None, es, items) && GoodEnd(end, false)
    ensures ParseItems(lib, s, i, nesting, acc).value.value == Array(acc + items)
    ensures s[i..ParseItems(lib, s, i, nesting, acc).value.next] == WrittenElements(es) + (end + [Char(']')])
    decreases |s| - i, 2
  {
    var v := ParseValue(lib, s, i, nesting).value;
    var w, d := ValueFound(lib, s, i, nesting, ParseValue(lib, s, i, nesting).value);
    match AfterElement(s, v.next, CLOSE_BRACKET)
    case Closed(next) =>
      es, items, end := LastItemFound(s, i, v.next, w, d, v.value);
    case More(k) =>
      var others, rest;
      others, rest, end := ItemsFound(lib, s, k, nesting, acc + [v.value]);
      var next := ParseItems(lib, s, k, nesting, acc + [v.value]).value.next;
      es, items := EarlierItemFound(s, i, v.next, next, w, d, v.value, others, rest, end);
      Regroup(acc, [v.value], rest);
  }

  lemma LastItemFound(s: seq<byte>, i: nat, q: nat, w: seq<byte>, d: Syntax, v: Json)
      returns (es: seq<Element>, items: seq<Json>, end: seq<byte>)
    requires Terminated(s) && i <= q < |s| && AfterElement(s, q, CLOSE_BRACKET).Closed?
    requires AllWhite(w) && Denotes(None, d, v) && s[i..q] == w + Written(d)
    ensures es != [] && items == [v] && ElementsDenote(None, es, items) && GoodEnd(end, false)
    ensures s[i..AfterElement(s, q, CLOSE_BRACKET).next] == WrittenElements(es) + (end + [Char(']')])
  {
    var after;
    after, end := EndFound(s, q, CLOSE_BRACKET);
    es, items := [Element(w, d, after)], [v];
    assert es[1..] == [] && items[1..] == [];
    Slices(s, i, q, AfterElement(s, q, CLOSE_BRACKET).next);
    LastWritten(es, end);
  }

  lemma EarlierItemFound(s: seq<byte>, i: nat, q: nat, next: nat, w: seq<byte>, d: Syntax, v: Json,
                         others: seq<Element>, rest: seq<Json>, end: seq<byte>)
      returns (es: seq<Element>, items: seq<Json>)
    requires Terminated(s) && i <= q < |s| && AfterElement(s, q, CLOSE_BRACKET).More?
    requires AllWhite(w) && Denotes(None, d, v) && s[i..q] == w + Written(d)
    requires others != [] && ElementsDenote(None, others, rest)
    requires AfterElement(s, q, CLOSE_BRACKET).next <= next <= |s|
    requires s[AfterElement(s, q, CLOSE_BRACKET).next..next] == WrittenElements(others) + (end + [Char(']')])
    ensures es != [] && items == [v] + rest && ElementsDenote(None, es, items)
    ensures s[i..next] == WrittenElements(es) + (end + [Char(']')])
  {
    var after, before := CommaFound(s, q, CLOSE_BRACKET);
    var k := AfterElement(s, q, CLOSE_BRACKET).next;
    es, items := [Element(w, d, after)] + PutBefore(before, others), [v] + rest;
    Slices(s, i, q, k);
    Slices(s, i, k, next);
    EarlierWritten(w, d, after, before, others, end);
    EarlierDenotes(w, d, after, v, before, others, rest);
  }

  /** More white space in front of the first element. */
  function PutBefore(before: seq<byte>, es: seq<Element>): seq<Element>
    requires es != []
  {
    [Element(before + es[0].before, es[0].value, es[0].after)] + es[1..]
  }

  lemma PutBeforeWritten(before: seq<byte>, es: seq<Element>)
    requires es != []
    ensures WrittenElements(PutBefore(before, es)) == before + WrittenElements(es)
  {
    assert PutBefore(before, es)[1..] == es[1..];
    var tail := if |es| == 1 then [] else [COMMA] + WrittenElements(es[1..]);
    Regroup(before, es[0].before, Written(es[0].value));
    Regroup(before, es[0].before + Written(es[0].value), es[0].after);
    Regroup(before, es[0].before + Written(es[0].value) + es[0].after, tail);
  }

  lemma LastWritten(es: seq<Element>, end: seq<byte>)
    requires |es| == 1
    ensures WrittenElements(es) + (end + [Char(']')])
            == es[0].before + Written(es[0].value) + (es[0].after + (end + [Char(']')]))
  {
    var head := es[0].before + Written(es[0].value);
    assert head + es[0].after + [] == head + es[0].after;
    Regroup(head, es[0].after, end + [Char(']')]);
  }

  lemma EarlierWritten(w: seq<byte>, d: Syntax, after: seq<byte>, before: seq<byte>, others: seq<Element>,
                       end: seq<byte>)
    requires others != []
    ensures WrittenElements([Element(w, d, after)] + PutBefore(before, others)) + (end + [Char(']')])
            == w + Written(d) + (after + ([COMMA] + before)) + (WrittenElements(others) + (end + [Char(']')]))
  {
    var es := [Element(w, d, after)] + PutBefore(before, others);
    var head, t, close := w + Written(d), WrittenElements(others), end + [Char(']')];
    assert es[1..] == PutBefore(before, others);
    PutBeforeWritten(before, others);
    assert WrittenElements(es) == head + after + ([COMMA] + (before + t));
    Regroup([COMMA], before, t);
    Regroup(head + after, [COMMA] + before, t);
    Regroup(head, after, [COMMA] + before);
    Regroup(head + (after + ([COMMA] + before)), t, close);
  }

  lemma EarlierDenotes(w: seq<byte>, d: Syntax, after: seq<byte>, v: Json, before: seq<byte>, others: seq<Element>,
                       rest: seq<Json>)
    requires AllWhite(w) && AllWhite(after) && AllWhite(before) && Denotes(None, d, v)
    requires others != [] && ElementsDenote(None, others, rest)
    ensures ElementsDenote(None, [Element(w, d, after)] + PutBefore(before, others), [v] + rest)
  {
    var put := PutBefore(before, others);
    assert put[1..] == others[1..];
    assert ElementsDenote(None, put, rest);
    assert ([Element(w, d, after)] + put)[1..] == put && ([v] + rest)[1..] == rest;
  }

  // ----- members -----

  lemma NameFound(s: seq<byte>, i: nat) returns (name: seq<Piece>, left: seq<byte>)
    requires Terminated(s) && i < |s| && ParseKey(s, i).Some?
    ensures AllWhite(left) && PiecesBytes(name) == ParseKey(s, i).value.bytes
    ensures s[i..ParseKey(s, i).value.next] == StringText(name) + left + [COLON]
  {
    var q, c := NameParts(s, i);
    name := StringFound(s, i);
    left := s[q..c];
    WhiteFound(s, q);
    NameTogether(s, i, q, c, StringText(name));
  }

  lemma NameParts(s: seq<byte>, i: nat) returns (q: nat, c: nat)
    requires Terminated(s) && i < |s| && ParseKey(s, i).Some?
    ensures GetQuoted(s, i).Some? && GetQuoted(s, i).value.next == q && i < q < |s|
    ensures GetQuoted(s, i).value.bytes == ParseKey(s, i).value.bytes
    ensures c == SkipWs(s, q) && s[c] == COLON && ParseKey(s, i).value.next == c + 1
  {
    q := GetQuoted(s, i).value.next;
    c := SkipWs(s, q);
  }

  lemma NameTogether(s: seq<byte>, i: nat, q: nat, c: nat, t: seq<byte>)
    requires i <= q <= c < |s| && s[i..q] == t && s[c] == COLON
    ensures s[i..c + 1] == t + s[q..c] + [COLON]
  {
    Slices(s, i, q, c);
    assert s[i..c + 1] == s[i..c] + [s[c]];
  }

  lemma MemberFound(lib: Libc, s: seq<byte>, i: nat, nesting: nat, w: seq<byte>, d: Syntax) returns (f: Field)
    requires Terminated(s) && i < |s| && ParseMember(lib, s, i, nesting).Some? && AllWhite(w)
    requires var at := ParseKey(s, i).value.next;
             && Denotes(None, d, ParseValue(lib, s, at, nesting).value.value)
             && s[at..ParseValue(lib, s, at, nesting).value.next] == w + Written(d)
    ensures f.before == [] && f.after == []
    ensures FieldsDenote(None, [f], [ParseMember(lib, s, i, nesting).value.member])
    ensures s[i..ParseMember(lib, s, i, nesting).value.next] == WrittenName(f) + Written(f.value)
  {
    var at, m := ParseKey(s, i).value.next, ParseMember(lib, s, i, nesting).value;
    var name, left := NameFound(s, i);
    f := Field([], name, left, w, d, []);
    Slices(s, i, at, m.next);
    Regroup(StringText(name) + left + [COLON], w, Written(d));
    OneFieldDenotes(f, m.member);
  }

  lemma OneFieldDenotes(f: Field, m: Member<Json>)
    requires AllWhite(f.before) && AllWhite(f.left) && AllWhite(f.right) && AllWhite(f.after)
    requires m.key == PiecesBytes(f.name) && Denotes(None, f.value, m.value)
    ensures FieldsDenote(None, [f], [m])
  {
    assert [f][1..] == [] && [m][1..] == [];
  }

  /** The member loop takes members of the grammar. */
  lemma {:induction false} MembersFound(lib: Libc, s: seq<byte>, i: nat, nesting: nat, acc: seq<Member<Json>>)
      returns (fs: seq<Field>, ms: seq<Member<Json>>, end: seq<byte>)
    requires Terminated(s) && i < |s| && ParseMembers(lib, s, i, nesting, acc).Some?
    ensures fs != [] && FieldsDenote(None, fs, ms) && GoodEnd(end, false)
    ensures ParseMembers(lib, s, i, nesting, acc).value.value == Object(acc + ms)
    ensures s[i..ParseMembers(lib, s, i, nesting, acc).value.next] == WrittenFields(fs) + (end + [Char('}')])
    decreases |s| - i, 2
  {
    var m := ParseMember(lib, s, i, nesting).value;
    var at := ParseKey(s, i).value.next;
    var w, d := ValueFound(lib, s, at, nesting, ParseValue(lib, s, at, nesting).value);
    var f := MemberFound(lib, s, i, nesting, w, d);
    match AfterElement(s, m.next, CLOSE_BRACE)
    case Closed(next) =>
      var after;
      after, end := EndFound(s, m.next, CLOSE_BRACE);
      fs, ms := [f.(after := after)], [m.member];
      Slices(s, i, m.next, next);
      LastFieldWritten(f, after, end);
      OneFieldDenotes(f.(after := after), m.member);
    case More(k) =>
      var after, before := CommaFound(s, m.next, CLOSE_BRACE);
      var others, rest;
      others, rest, end := MembersFound(lib, s, k, nesting, acc + [m.member]);
      fs, ms := [f.(after := after)] + PutFieldBefore(before, others), [m.member] + rest;
      var next := ParseMembers(lib, s, k, nesting, acc + [m.member]).value.next;
      Slices(s, i, m.next, k);
      Slices(s, i, k, next);
      EarlierFieldWritten(f, after, before, others, end);
      EarlierFieldDenotes(f, after, m.member, before, others, rest);
      Regroup(acc, [m.member], rest);
  }

  function PutFieldBefore(before: seq<byte>, fs: seq<Field>): seq<Field>
    requires fs != []
  {
    [fs[0].(before := before + fs[0].before)] + fs[1..]
  }

  lemma PutFieldBeforeWritten(before: seq<byte>, fs: seq<Field>)
    requires fs != []
    ensures WrittenFields(PutFieldBefore(before, fs)) == before + WrittenFields(fs)
  {
    assert PutFieldBefore(before, fs)[1..] == fs[1..];
    var t := WrittenName(fs[0]) + Written(fs[0].value);
    var tail := if |fs| == 1 then [] else [COMMA] + WrittenFields(fs[1..]);
    Regroup(before, fs[0].before, t);
    Regroup(before, fs[0].before + t, fs[0].after);
    Regroup(before, fs[0].before + t + fs[0].after, tail);
  }

  lemma LastFieldWritten(f: Field, after: seq<byte>, end: seq<byte>)
    requires f.before == []
    ensures WrittenFields([f.(after := after)]) + (end + [Char('}')])
            == WrittenName(f) + Written(f.value) + (after + (end + [Char('}')]))
  {
    var t := WrittenName(f) + Written(f.value);
    assert WrittenFields([f.(after := after)]) == [] + t + after + [];
    assert [] + t == t && t + after + [] == t + after;
    Regroup(t, after, end + [Char('}')]);
  }

  lemma EarlierFieldWritten(f: Field, after: seq<byte>, before: seq<byte>, others: seq<Field>, end: seq<byte>)
    requires others != [] && f.before == []
    ensures WrittenFields([f.(after := after)] + PutFieldBefore(before, others)) + (end + [Char('}')])
            == WrittenName(f) + Written(f.value) + (after + ([COMMA] + before))
               + (WrittenFields(others) + (end + [Char('}')]))
  {
    var fs := [f.(after := after)] + PutFieldBefore(before, others);
    var head, t, close := WrittenName(f) + Written(f.value), WrittenFields(others), end + [Char('}')];
    assert fs[1..] == PutFieldBefore(before, others);
    PutFieldBeforeWritten(before, others);
    assert [] + head == head;
    assert WrittenFields(fs) == head + after + ([COMMA] + (before + t));
    Regroup([COMMA], before, t);
    Regroup(head + after, [COMMA] + before, t);
    Regroup(head, after, [COMMA] + before);
    Regroup(head + (after + ([COMMA] + before)), t, close);
  }

  lemma EarlierFieldDenotes(f: Field, after: seq<byte>, m: Member<Json>, before: seq<byte>, others: seq<Field>,
                            rest: seq<Member<Json>>)
    requires FieldsDenote(None, [f], [m]) && AllWhite(after) && AllWhite(before)
    requires others != [] && FieldsDenote(None, others, rest)
    ensures FieldsDenote(None, [f.(after := after)] + PutFieldBefore(before, others), [m] + rest)
  {
    var put := PutFieldBefore(before, others);
    assert put[1..] == others[1..];
    assert FieldsDenote(None, put, rest);
    assert ([f.(after := after)] + put)[1..] == put && ([m] + rest)[1..] == rest;
  }

  // ----- values -----

  lemma {:induction false} ArrayFound(lib: Libc, s: seq<byte>, i: nat, nesting: nat, r: Parsed) returns (d: Syntax)
    requires Terminated(s) && i < |s| && s[i] == OPEN_BRACKET && ParseArray(lib, s, i, nesting) == Some(r)
    ensures Denotes(None, d, r.value) && s[i..r.next] == Written(d)
    decreases |s| - i, 0
  {
    var k := SkipWs(s, i + 1);
    WhiteFound(s, i + 1);
    if s[k] == CLOSE_BRACKET {
      d := EmptyArrayTogether(s, i, k);
    } else {
      var es, items, end := ItemsFound(lib, s, k, nesting, []);
      assert [] + items == items;
      d := ArrayTogether(s, i, k, r.next, es, items, end);
    }
  }

  lemma EmptyArrayTogether(s: seq<byte>, i: nat, k: nat) returns (d: Syntax)
    requires i < k < |s| && s[i] == OPEN_BRACKET && s[k] == CLOSE_BRACKET && AllWhite(s[i + 1..k])
    ensures Denotes(None, d, Array([])) && s[i..k + 1] == Written(d)
  {
    var w := s[i + 1..k];
    d := ArrayWord([], w);
    EmptyTogether(s, i, k);
    assert [] + (w + [Char(']')]) == w + [Char(']')];
  }

  lemma EmptyTogether(s: seq<byte>, i: nat, k: nat)
    requires i < k < |s|
    ensures s[i..k + 1] == [s[i]] + (s[i + 1..k] + [s[k]])
  {
  }

  lemma ArrayTogether(s: seq<byte>, i: nat, k: nat, next: nat, es: seq<Element>, items: seq<Json>, end: seq<byte>)
      returns (d: Syntax)
    requires i < k <= next <= |s| && s[i] == OPEN_BRACKET && AllWhite(s[i + 1..k])
    requires es != [] && ElementsDenote(None, es, items) && GoodEnd(end, false)
    requires s[k..next] == WrittenElements(es) + (end + [Char(']')])
    ensures Denotes(None, d, Array(items)) && s[i..next] == Written(d)
  {
    var w := s[i + 1..k];
    d := ArrayWord(PutBefore(w, es), end);
    PutBeforeWritten(w, es);
    PutBeforeDenotes(w, es, items);
    Regroup(w, WrittenElements(es), end + [Char(']')]);
    OpeningFound(s, i, k, next);
  }

  lemma PutBeforeDenotes(before: seq<byte>, es: seq<Element>, items: seq<Json>)
    requires AllWhite(before) && es != [] && ElementsDenote(None, es, items)
    ensures ElementsDenote(None, PutBefore(before, es), items)
  {
    assert PutBefore(before, es)[1..] == es[1..];
  }

  lemma OpeningFound(s: seq<byte>, i: nat, k: nat, next: nat)
    requires i < k <= next <= |s|
    ensures s[i..next] == [s[i]] + (s[i + 1..k] + s[k..next])
  {
  }

  lemma {:induction false} ObjectFound(lib: Libc, s: seq<byte>, i: nat, nesting: nat, r: Parsed) returns (d: Syntax)
    requires Terminated(s) && i < |s| && s[i] == OPEN_BRACE && ParseObject(lib, s, i, nesting) == Some(r)
    requires Valid(r.value)
    ensures Denotes(None, d, r.value) && s[i..r.next] == Written(d)
    decreases |s| - i, 0
  {
    var k := SkipWs(s, i + 1);
    WhiteFound(s, i + 1);
    if s[k] == CLOSE_BRACE {
      d := EmptyObjectTogether(s, i, k);
    } else {
      var fs, ms, end := MembersFound(lib, s, k, nesting, []);
      assert [] + ms == ms;
      d := ObjectTogether(s, i, k, r.next, fs, ms, end);
    }
  }

  lemma EmptyObjectTogether(s: seq<byte>, i: nat, k: nat) returns (d: Syntax)
    requires i < k < |s| && s[i] == OPEN_BRACE && s[k] == CLOSE_BRACE && AllWhite(s[i + 1..k])
    ensures Denotes(None, d, Object([])) && s[i..k + 1] == Written(d)
  {
    var w := s[i + 1..k];
    d := ObjectWord([], w);
    EmptyTogether(s, i, k);
    assert [] + (w + [Char('}')]) == w + [Char('}')];
  }

  lemma ObjectTogether(s: seq<byte>, i: nat, k: nat, next: nat, fs: seq<Field>, ms: seq<Member<Json>>, end: seq<byte>)
      returns (d: Syntax)
    requires i < k <= next <= |s| && s[i] == OPEN_BRACE && AllWhite(s[i + 1..k])
    requires fs != [] && FieldsDenote(None, fs, ms) && DistinctKeys(ms) && GoodEnd(end, false)
    requires s[k..next] == WrittenFields(fs) + (end + [Char('}')])
    ensures Denotes(None, d, Object(ms)) && s[i..next] == Written(d)
  {
    var w := s[i + 1..k];
    d := ObjectWord(PutFieldBefore(w, fs), end);
    PutFieldBeforeWritten(w, fs);
    PutFieldBeforeDenotes(w, fs, ms);
    Regroup(w, WrittenFields(fs), end + [Char('}')]);
    OpeningFound(s, i, k, next);
  }

  lemma PutFieldBeforeDenotes(before: seq<byte>, fs: seq<Field>, ms: seq<Member<Json>>)
    requires AllWhite(before) && fs != [] && FieldsDenote(None, fs, ms)
    ensures FieldsDenote(None, PutFieldBefore(before, fs), ms)
  {
    assert PutFieldBefore(before, fs)[1..] == fs[1..];
  }

  lemma ScalarFound(lib: Libc, s: seq<byte>, i: nat, nesting: nat) returns (d: Syntax)
    requires Terminated(s) && i < |s| && !IsSpace(s[i]) && s[i] != OPEN_BRACE && s[i] != OPEN_BRACKET
    requires ParseValue(lib, s, i, nesting).Some?
    ensures Denotes(None, d, ParseValue(lib, s, i, nesting).value.value)
    ensures s[i..ParseValue(lib, s, i, nesting).value.next] == Written(d)
  {
    ScalarCases(lib, s, i, nesting);
    if s[i] == QUOTE {
      var ps := StringFound(s, i);
      d := StringWord(ps);
    } else if s[i] == '-' as int || IsDigit(s[i]) {
      d := NumberWord(s[i..ParseNumber(lib, s, i).value.next]);
    } else if s[i] == 'n' as int {
      d := NullWord;
    } else if StartsWith(s, i, TrueToken()) {
      d := TrueWord;
    } else {
      d := FalseWord;
    }
  }

  /** Whatever the parser takes for a value is white space and a text that denotes it, where numbers are taken as
      `strtod` takes them. */
  lemma {:induction false} ValueFound(lib: Libc, s: seq<byte>, i: nat, nesting: nat, r: Parsed)
      returns (w: seq<byte>, d: Syntax)
    requires Terminated(s) && i < |s| && ParseValue(lib, s, i, nesting) == Some(r)
    ensures AllWhite(w) && Denotes(None, d, r.value) && s[i..r.next] == w + Written(d)
    decreases |s| - i, 1
  {
    var j := SkipWs(s, i);
    WhiteFound(s, i);
    w := s[i..j];
    ValueAfterWs(lib, s, i, j, nesting);
    Slices(s, i, j, r.next);
    if s[j] == OPEN_BRACE {
      JsonLaws.ParseGivesValid(lib, s, j, nesting);
      d := ObjectFound(lib, s, j, nesting + 1, r);
    } else if s[j] == OPEN_BRACKET {
      d := ArrayFound(lib, s, j, nesting + 1, r);
    } else {
      d := ScalarFound(lib, s, j, nesting);
    }
  }

  // ----- whole texts -----

  /** Up to `j` stand a byte order mark or none, white space, and a text of the grammar that denotes `v`. */
  ghost predicate SpellsOut(s: seq<byte>, j: nat, mark: seq<byte>, w: seq<byte>, d: Syntax, v: Json) {
    && j < |s| && s[..j] == mark + w + Written(d)
    && (mark == [] || mark == [0xEF, 0xBB, 0xBF]) && AllWhite(w) && Denotes(None, d, v)
  }

  /** The parser takes no texts but those of the grammar, with numbers as `strtod` takes them. */
  lemma TextFound(lib: Libc, s: seq<byte>, p: Parsed) returns (mark: seq<byte>, w: seq<byte>, d: Syntax)
    requires Terminated(s) && ParseString(lib, s) == Some(p)
    ensures SpellsOut(s, p.next, mark, w, d, p.value) && Height(p.value) <= 2048
  {
    var start := MarkFound(lib, s);
    mark := s[..start];
    w, d := ValueFound(lib, s, start, 0, p);
    JsonLaws.ParseGivesValid(lib, s, start, 0);
    TextTogether(s, start, p.next, mark, w, d, p.value);
  }

  lemma MarkFound(lib: Libc, s: seq<byte>) returns (start: nat)
    requires Terminated(s)
    ensures start < |s| && (s[..start] == [] || s[..start] == [0xEF, 0xBB, 0xBF])
    ensures ParseString(lib, s) == ParseValue(lib, s, start, 0)
  {
    start := if s[0] == 0xEF && s[1] == 0xBB && s[2] == 0xBF then 3 else 0;
  }

  lemma TextTogether(s: seq<byte>, start: nat, next: nat, mark: seq<byte>, w: seq<byte>, d: Syntax, v: Json)
    requires start <= next < |s| && mark == s[..start] && s[start..next] == w + Written(d)
    requires (mark == [] || mark == [0xEF, 0xBB, 0xBF]) && AllWhite(w) && Denotes(None, d, v)
    ensures SpellsOut(s, next, mark, w, d, v)
  {
    assert s[..next] == s[..start] + s[start..next];
    Regroup(mark, w, Written(d));
  }

  ghost predicate NumberFree(v: Json) {
    match v
    case Number(_) => false
    case Array(items) => forall i :: 0 <= i < |items| ==> NumberFree(items[i])
    case Object(ms) => forall i :: 0 <= i < |ms| ==> NumberFree(ms[i].value)
    case _ => true
  }

  lemma {:induction false} NumberFreeDenotes(lib: Libc, d: Syntax, v: Json)
    requires Denotes(None, d, v) && NumberFree(v)
    ensures Denotes(Some(lib), d, v)
    decreases d
  {
    match d
    case ArrayWord(es, _) => NumberFreeElements(lib, es, v.items);
    case ObjectWord(fs, _) => NumberFreeFields(lib, fs, v.members);
    case _ =>
  }

  lemma {:induction false} NumberFreeElements(lib: Libc, es: seq<Element>, items: seq<Json>)
    requires ElementsDenote(None, es, items) && forall i :: 0 <= i < |items| ==> NumberFree(items[i])
    ensures ElementsDenote(Some(lib), es, items)
    decreases es
  {
    if es != [] {
      NumberFreeDenotes(lib, es[0].value, items[0]);
      NumberFreeElements(lib, es[1..], items[1..]);
    }
  }

  lemma {:induction false} NumberFreeFields(lib: Libc, fs: seq<Field>, ms: seq<Member<Json>>)
    requires FieldsDenote(None, fs, ms) && forall i :: 0 <= i < |ms| ==> NumberFree(ms[i].value)
    ensures FieldsDenote(Some(lib), fs, ms)
    decreases fs
  {
    if fs != [] {
      NumberFreeDenotes(lib, fs[0].value, ms[0].value);
      NumberFreeFields(lib, fs[1..], ms[1..]);
    }
  }

  /** Without numbers, the parser takes exactly the texts of the grammar whose values lie no deeper than 2048. */
  lemma ParsesExactly(lib: Libc, s: seq<byte>, j: nat, v: Json)
    requires Terminated(s) && NumberFree(v)
    ensures ParseString(lib, s) == Some(Parsed(v, j)) <==>
            Height(v) <= 2048 && exists mark, w, d :: SpellsOut(s, j, mark, w, d, v)
  {
    if ParseString(lib, s) == Some(Parsed(v, j)) {
      var mark, w, d := TextFound(lib, s, Parsed(v, j));
    }
    if mark, w, d :| SpellsOut(s, j, mark, w, d, v) && Height(v) <= 2048 {
      SpelledParses(lib, s, j, mark, w, d, v);
    }
  }

  lemma SpelledParses(lib: Libc, s: seq<byte>, j: nat, mark: seq<byte>, w: seq<byte>, d: Syntax, v: Json)
    requires Terminated(s) && NumberFree(v) && SpellsOut(s, j, mark, w, d, v) && Height(v) <= 2048
    ensures ParseString(lib, s) == Some(Parsed(v, j))
  {
    NumberFreeDenotes(lib, d, v);
    SpelledLies(s, j, mark, w, Written(d), s[j..]);
    assert TextDenotes(lib, Written(d), v);
    TextParses(lib, s, mark, w, Written(d), v, s[j..], j);
  }

  lemma SpelledLies(s: seq<byte>, j: nat, mark: seq<byte>, w: seq<byte>, t: seq<byte>, suffix: seq<byte>)
    requires Terminated(s) && j < |s| && s[..j] == mark + w + t && suffix == s[j..]
    ensures Terminated(suffix) && s == mark + w + t + suffix && j == |mark| + |w| + |t|
  {
  }
}
