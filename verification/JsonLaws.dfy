/** The laws of parsing and printing whole texts. */
module JsonLaws {
  import opened AssocLists
  import opened Bytes
  import opened JsonRoundTrip
  import opened JsonText
  import opened JsonTrees
  import opened Options
  import opened ParserSteps
  import opened Strings

  /** Parsing inverts printing, in every style and with anything but more digits behind the text, if and only if
      no value lies deeper than the nesting limit. */
  lemma ParseInvertsPrint(lib: Libc, st: Style, v: Json, t: seq<byte>, suffix: seq<byte>, s: seq<byte>)
    requires Valid(v) && NumbersReadBack(lib, v) && t == Print(lib, st, v, 0)
    requires Terminated(suffix) && (v.Number? ==> !ContinuesNumber(suffix[0])) && s == t + suffix
    ensures Terminated(s)
    ensures ParseString(lib, s) == if Height(v) <= MAX_NESTING then Some(Parsed(v, |t|)) else None
  {
    ValidIsSound(lib, v);
    PrintStarts(lib, st, v, 0);
    assert s[0] == t[0];
    assert s[0..0 + |t|] == t;
    ValueReads(lib, st, s, v, 0, 0);
    assert TextAt(s, 0, |t|, t) && Ends(s, |t|, v);
  }

  // ----- the text as a C string -----

  lemma {:induction false} EscapeNoNul(s: seq<byte>, escapeSlashes: bool)
    ensures 0 !in Escape(s, escapeSlashes)
    decreases |s|
  {
    if s != [] {
      EscapeNoNul(s[1..], escapeSlashes);
    }
  }

  lemma {:induction false} IndentNoNul(level: nat)
    ensures 0 !in Indent(level)
  {
    if level > 0 {
      IndentNoNul(level - 1);
    }
  }

  /** No NUL stands in the printed form, whatever bytes its strings hold: as a C string it is whole. */
  lemma {:induction false} PrintIsCString(lib: Libc, st: Style, v: Json, level: nat)
    ensures 0 !in Print(lib, st, v, level)
    decreases v
  {
    match v
    case Str(chars) => EscapeNoNul(chars, st.escapeSlashes);
    case Array(items) =>
      ItemsNoNul(lib, st, items, level);
      ListNoNul(st, OPEN_BRACKET, PrintItems(lib, st, items, level), level, CLOSE_BRACKET);
    case Object(ms) =>
      MembersNoNul(lib, st, ms, level);
      ListNoNul(st, OPEN_BRACE, PrintMembers(lib, st, ms, level), level, CLOSE_BRACE);
    case _ =>
  }

  lemma ListNoNul(st: Style, open: byte, list: seq<byte>, level: nat, close: byte)
    requires open != 0 && close != 0 && 0 !in list
    ensures 0 !in Listed(st, open, list, level, close)
  {
    IndentNoNul(level);
  }

  lemma {:induction false} ItemsNoNul(lib: Libc, st: Style, items: seq<Json>, level: nat)
    ensures 0 !in PrintItems(lib, st, items, level)
    decreases items
  {
    if items != [] {
      IndentNoNul(level + 1);
      PrintIsCString(lib, st, items[0], level + 1);
      ItemsNoNul(lib, st, items[1..], level);
    }
  }

  lemma {:induction false} MembersNoNul(lib: Libc, st: Style, ms: seq<Member<Json>>, level: nat)
    ensures 0 !in PrintMembers(lib, st, ms, level)
    decreases ms
  {
    if ms != [] {
      IndentNoNul(level + 1);
      EscapeNoNul(ms[0].key, st.escapeSlashes);
      PrintIsCString(lib, st, ms[0].value, level + 1);
      MembersNoNul(lib, st, ms[1..], level);
    }
  }

  // ----- what the parser returns -----

  /** Values that are valid and nest no deeper than the limit allows at `nesting`. */
  ghost predicate WithinLimit(v: Json, nesting: nat) {
    Valid(v) && Fits(nesting, Height(v))
  }

  lemma {:induction false} ItemsWithin(items: seq<Json>, nesting: nat)
    requires nesting <= MAX_NESTING && forall k :: 0 <= k < |items| ==> WithinLimit(items[k], nesting + 1)
    ensures Fits(nesting, ItemsHeight(items))
    decreases |items|
  {
    if items != [] {
      assert WithinLimit(items[0], nesting + 1);
      assert forall k :: 0 <= k < |items[1..]| ==> items[1..][k] == items[k + 1];
      ItemsWithin(items[1..], nesting);
    }
  }

  lemma {:induction false} MembersWithin(ms: seq<Member<Json>>, nesting: nat)
    requires nesting <= MAX_NESTING && forall k :: 0 <= k < |ms| ==> WithinLimit(ms[k].value, nesting + 1)
    ensures Fits(nesting, MembersHeight(ms))
    decreases |ms|
  {
    if ms != [] {
      assert WithinLimit(ms[0].value, nesting + 1);
      assert forall k :: 0 <= k < |ms[1..]| ==> ms[1..][k] == ms[k + 1];
      MembersWithin(ms[1..], nesting);
    }
  }

  /** Every value the parser returns is valid and within the nesting limit. */
  lemma {:induction false} ParseGivesValid(lib: Libc, s: seq<byte>, i: nat, nesting: nat)
    requires Terminated(s) && i < |s|
    ensures var r := ParseValue(lib, s, i, nesting); r.Some? ==> WithinLimit(r.value.value, nesting)
    decreases |s| - i, 1
  {
    var j := SkipWs(s, i);
    if nesting <= MAX_NESTING && s[j] == OPEN_BRACE {
      var k := SkipWs(s, j + 1);
      if s[k] != CLOSE_BRACE {
        ParseMembersValid(lib, s, k, nesting, []);
      }
    } else if nesting <= MAX_NESTING && s[j] == OPEN_BRACKET {
      var k := SkipWs(s, j + 1);
      if s[k] != CLOSE_BRACKET {
        ParseItemsValid(lib, s, k, nesting, []);
      }
    }
  }

  lemma {:induction false} ParseItemsValid(lib: Libc, s: seq<byte>, i: nat, nesting: nat, acc: seq<Json>)
    requires Terminated(s) && i < |s| && nesting <= MAX_NESTING
    requires forall k :: 0 <= k < |acc| ==> WithinLimit(acc[k], nesting + 1)
    ensures var r := ParseItems(lib, s, i, nesting + 1, acc); r.Some? ==> WithinLimit(r.value.value, nesting)
    decreases |s| - i, 2
  {
    if ParseItems(lib, s, i, nesting + 1, acc).Some? {
      var v := ParseValue(lib, s, i, nesting + 1).value;
      ParseGivesValid(lib, s, i, nesting + 1);
      AppendItem(acc, v.value, nesting);
      match AfterElement(s, v.next, CLOSE_BRACKET)
      case More(k) => ParseItemsValid(lib, s, k, nesting, acc + [v.value]);
      case _ =>
    }
  }

  lemma AppendItem(acc: seq<Json>, v: Json, nesting: nat)
    requires nesting <= MAX_NESTING && WithinLimit(v, nesting + 1)
    requires forall k :: 0 <= k < |acc| ==> WithinLimit(acc[k], nesting + 1)
    ensures var items := acc + [v];
            && WithinLimit(Array(items), nesting)
            && forall k :: 0 <= k < |items| ==> WithinLimit(items[k], nesting + 1)
  {
    ItemsWithin(acc + [v], nesting);
  }

  lemma AppendMember(acc: seq<Member<Json>>, key: CString, v: Json, nesting: nat)
    requires nesting <= MAX_NESTING && DistinctKeys(acc) && !HasKey(acc, key) && WithinLimit(v, nesting + 1)
    requires forall k :: 0 <= k < |acc| ==> WithinLimit(acc[k].value, nesting + 1)
    ensures var ms := acc + [Member(key, v)];
            && DistinctKeys(ms) && WithinLimit(Object(ms), nesting)
            && forall k :: 0 <= k < |ms| ==> WithinLimit(ms[k].value, nesting + 1)
  {
    MembersWithin(acc + [Member(key, v)], nesting);
  }

  /** One turn of the member loop: the loop has answered, or it goes on with the new member behind it. */
  lemma MembersLoop(lib: Libc, s: seq<byte>, i: nat, nesting: nat, acc: seq<Member<Json>>)
      returns (key: CString, v: Json, at: nat, k: nat)
    requires Terminated(s) && i < |s| && ParseMembers(lib, s, i, nesting, acc).Some?
    ensures i < at < |s| && ParseValue(lib, s, at, nesting).Some? && ParseValue(lib, s, at, nesting).value.value == v
    ensures !HasKey(acc, key) && i < k < |s|
    ensures var ms, r := acc + [Member(key, v)], ParseMembers(lib, s, i, nesting, acc);
            r.value.value == Object(ms) || r == ParseMembers(lib, s, k, nesting, ms)
  {
    var m := ParseMember(lib, s, i, nesting).value;
    at := ParseKey(s, i).value.next;
    key, v := m.member.key, m.member.value;
    var j := SkipWs(s, m.next);
    k := if s[j] == COMMA then SkipWs(s, j + 1) else j;
  }

  lemma {:induction false} ParseMembersValid(lib: Libc, s: seq<byte>, i: nat, nesting: nat, acc: seq<Member<Json>>)
    requires Terminated(s) && i < |s| && nesting <= MAX_NESTING && DistinctKeys(acc)
    requires forall k :: 0 <= k < |acc| ==> WithinLimit(acc[k].value, nesting + 1)
    ensures var r := ParseMembers(lib, s, i, nesting + 1, acc); r.Some? ==> WithinLimit(r.value.value, nesting)
    decreases |s| - i, 2
  {
    if ParseMembers(lib, s, i, nesting + 1, acc).Some? {
      var key, v, at, k := MembersLoop(lib, s, i, nesting + 1, acc);
      ParseGivesValid(lib, s, at, nesting + 1);
      AppendMember(acc, key, v, nesting);
      var ms := acc + [Member(key, v)];
      ParseMembersValid(lib, s, k, nesting, ms);
    }
  }

  /** What was parsed from any text can be printed in any style and parsed again. */
  lemma ReparseGivesSame(lib: Libc, s: seq<byte>, st: Style)
    requires Terminated(s) && ParseString(lib, s).Some? && NumbersReadBack(lib, ParseString(lib, s).value.value)
    ensures var v := ParseString(lib, s).value.value;
            var t := Print(lib, st, v, 0);
            Valid(v) && Height(v) <= MAX_NESTING && ParseString(lib, t + [0]) == Some(Parsed(v, |t|))
  {
    var start := if s[0] == 0xEF && s[1] == 0xBB && s[2] == 0xBF then 3 else 0;
    ParseGivesValid(lib, s, start, 0);
    var v := ParseString(lib, s).value.value;
    var t := Print(lib, st, v, 0);
    ParseInvertsPrint(lib, st, v, t, [0], t + [0]);
  }
}
