/** How many bytes the serializer of include/parson.c:1357-1464 measures and writes, counted from the two layouts. */
module LayoutSize {
  import opened AssocLists
  import opened Bytes
  import opened JsonLayout
  import JsonSerializer
  import opened JsonSyntax
  import opened JsonText
  import opened JsonTrees

  /** One byte for itself, two for an escape with a letter, six for a control character without one. */
  function ByteSize(c: byte, escapeSlashes: bool): nat {
    if c == Char('"') || c == Char('\\') || (c == Char('/') && escapeSlashes) then 2
    else if c >= 0x20 then 1
    else if c == 0x08 || c == 0x09 || c == 0x0A || c == 0x0C || c == 0x0D then 2
    else 6
  }

  function BytesSize(chars: seq<byte>, escapeSlashes: bool): nat {
    if chars == [] then 0 else ByteSize(chars[0], escapeSlashes) + BytesSize(chars[1..], escapeSlashes)
  }

  function WordSize(lib: Libc, v: Json, escapeSlashes: bool): nat
    requires !v.Array? && !v.Object?
  {
    match v
    case Null => 4
    case Boolean(b) => if b then 4 else 5
    case Number(x) => |lib.format(x)|
    case Str(chars) => BytesSize(chars, escapeSlashes) + 2
  }

  /** The commas of a list of `n` elements. */
  function Commas(n: nat): nat {
    if n == 0 then 0 else n - 1
  }

  // ----- the compact form -----

  function CompactSize(lib: Libc, v: Json, escapeSlashes: bool): nat
    decreases v
  {
    match v
    case Array(items) => 2 + Commas(|items|) + CompactItemsSize(lib, items, escapeSlashes)
    case Object(ms) => 2 + Commas(|ms|) + CompactMembersSize(lib, ms, escapeSlashes)
    case _ => WordSize(lib, v, escapeSlashes)
  }

  function CompactItemsSize(lib: Libc, items: seq<Json>, escapeSlashes: bool): nat
    decreases items
  {
    if items == [] then 0
    else CompactSize(lib, items[0], escapeSlashes) + CompactItemsSize(lib, items[1..], escapeSlashes)
  }

  /** Two quotes and a colon a member. */
  function CompactMembersSize(lib: Libc, ms: seq<Member<Json>>, escapeSlashes: bool): nat
    decreases ms
  {
    if ms == [] then 0
    else BytesSize(ms[0].key, escapeSlashes) + 3 + CompactSize(lib, ms[0].value, escapeSlashes)
         + CompactMembersSize(lib, ms[1..], escapeSlashes)
  }

  // ----- the pretty form -----

  /** A list that is not empty takes one line end and four blanks a level more for each element, and the same for the
      closing bracket. */
  function PrettySize(lib: Libc, v: Json, level: nat, escapeSlashes: bool): nat
    decreases v
  {
    match v
    case Array(items) =>
      if items == [] then 2
      else 2 + Commas(|items|) + PrettyItemsSize(lib, items, level + 1, escapeSlashes) + 1 + 4 * level
    case Object(ms) =>
      if ms == [] then 2
      else 2 + Commas(|ms|) + PrettyMembersSize(lib, ms, level + 1, escapeSlashes) + 1 + 4 * level
    case _ => WordSize(lib, v, escapeSlashes)
  }

  function PrettyItemsSize(lib: Libc, items: seq<Json>, level: nat, escapeSlashes: bool): nat
    decreases items
  {
    if items == [] then 0
    else 1 + 4 * level + PrettySize(lib, items[0], level, escapeSlashes)
         + PrettyItemsSize(lib, items[1..], level, escapeSlashes)
  }

  /** Two quotes, a colon and a blank a member. */
  function PrettyMembersSize(lib: Libc, ms: seq<Member<Json>>, level: nat, escapeSlashes: bool): nat
    decreases ms
  {
    if ms == [] then 0
    else 1 + 4 * level + BytesSize(ms[0].key, escapeSlashes) + 4 + PrettySize(lib, ms[0].value, level, escapeSlashes)
         + PrettyMembersSize(lib, ms[1..], level, escapeSlashes)
  }

  // ----- the sizes are those of the texts -----

  lemma {:induction false} BytesCounted(chars: seq<byte>, escapeSlashes: bool)
    ensures |BytesText(chars, escapeSlashes)| == BytesSize(chars, escapeSlashes)
    decreases |chars|
  {
    if chars != [] {
      BytesCounted(chars[1..], escapeSlashes);
    }
  }

  lemma WordCounted(lib: Libc, v: Json, escapeSlashes: bool)
    requires !v.Array? && !v.Object?
    ensures |WordText(lib, v, escapeSlashes)| == WordSize(lib, v, escapeSlashes)
  {
    if v.Str? {
      BytesCounted(v.chars, escapeSlashes);
    }
  }

  lemma JoinedSize(texts: seq<seq<byte>>)
    ensures texts == [] ==> |Joined(texts)| == 0
    ensures texts != [] ==> |Joined(texts)| == |texts[0]| + |Joined(texts[1..])| + if |texts| == 1 then 0 else 1
  {
  }

  lemma {:induction false} CompactCounted(lib: Libc, v: Json, escapeSlashes: bool)
    ensures |Compact(lib, v, escapeSlashes)| == CompactSize(lib, v, escapeSlashes)
    decreases v, 1
  {
    match v
    case Array(items) => CompactItemsCounted(lib, items, escapeSlashes);
    case Object(ms) => CompactMembersCounted(lib, ms, escapeSlashes);
    case _ => WordCounted(lib, v, escapeSlashes);
  }

  lemma {:induction false} CompactItemsCounted(lib: Libc, items: seq<Json>, escapeSlashes: bool)
    ensures |Joined(CompactItems(lib, items, escapeSlashes))|
            == Commas(|items|) + CompactItemsSize(lib, items, escapeSlashes)
    decreases items, 0
  {
    var texts := CompactItems(lib, items, escapeSlashes);
    JoinedSize(texts);
    if items != [] {
      CompactCounted(lib, items[0], escapeSlashes);
      CompactItemsCounted(lib, items[1..], escapeSlashes);
      assert texts[1..] == CompactItems(lib, items[1..], escapeSlashes);
    }
  }

  lemma {:induction false} CompactMembersCounted(lib: Libc, ms: seq<Member<Json>>, escapeSlashes: bool)
    ensures |Joined(CompactMembers(lib, ms, escapeSlashes))|
            == Commas(|ms|) + CompactMembersSize(lib, ms, escapeSlashes)
    decreases ms, 0
  {
    var texts := CompactMembers(lib, ms, escapeSlashes);
    JoinedSize(texts);
    if ms != [] {
      BytesCounted(ms[0].key, escapeSlashes);
      CompactCounted(lib, ms[0].value, escapeSlashes);
      CompactMembersCounted(lib, ms[1..], escapeSlashes);
      assert texts[1..] == CompactMembers(lib, ms[1..], escapeSlashes);
    }
  }

  lemma ArrayCounted(lib: Libc, v: Json, items: seq<Json>, lines: seq<byte>, level: nat, escapeSlashes: bool)
    requires v == Array(items) && lines == Joined(PrettyItems(lib, items, level + 1, escapeSlashes))
    requires |lines| == Commas(|items|) + PrettyItemsSize(lib, items, level + 1, escapeSlashes)
    ensures |Pretty(lib, v, level, escapeSlashes)| == PrettySize(lib, v, level, escapeSlashes)
  {
    assert |[Char('[')] + lines + NewLine(level) + [Char(']')]| == 2 + |lines| + 1 + 4 * level;
  }

  lemma ObjectCounted(lib: Libc, v: Json, ms: seq<Member<Json>>, lines: seq<byte>, level: nat, escapeSlashes: bool)
    requires v == Object(ms) && lines == Joined(PrettyMembers(lib, ms, level + 1, escapeSlashes))
    requires |lines| == Commas(|ms|) + PrettyMembersSize(lib, ms, level + 1, escapeSlashes)
    ensures |Pretty(lib, v, level, escapeSlashes)| == PrettySize(lib, v, level, escapeSlashes)
  {
    assert |[Char('{')] + lines + NewLine(level) + [Char('}')]| == 2 + |lines| + 1 + 4 * level;
  }

  lemma {:induction false} PrettyCounted(lib: Libc, v: Json, level: nat, escapeSlashes: bool)
    ensures |Pretty(lib, v, level, escapeSlashes)| == PrettySize(lib, v, level, escapeSlashes)
    decreases v, 1
  {
    match v
    case Array(items) =>
      PrettyItemsCounted(lib, items, level + 1, escapeSlashes);
      ArrayCounted(lib, v, items, Joined(PrettyItems(lib, items, level + 1, escapeSlashes)), level, escapeSlashes);
    case Object(ms) =>
      PrettyMembersCounted(lib, ms, level + 1, escapeSlashes);
      ObjectCounted(lib, v, ms, Joined(PrettyMembers(lib, ms, level + 1, escapeSlashes)), level, escapeSlashes);
    case _ => WordCounted(lib, v, escapeSlashes);
  }

  lemma {:induction false} PrettyItemsCounted(lib: Libc, items: seq<Json>, level: nat, escapeSlashes: bool)
    ensures |Joined(PrettyItems(lib, items, level, escapeSlashes))|
            == Commas(|items|) + PrettyItemsSize(lib, items, level, escapeSlashes)
    decreases items, 0
  {
    var texts := PrettyItems(lib, items, level, escapeSlashes);
    JoinedSize(texts);
    if items != [] {
      PrettyCounted(lib, items[0], level, escapeSlashes);
      PrettyItemsCounted(lib, items[1..], level, escapeSlashes);
      assert texts[1..] == PrettyItems(lib, items[1..], level, escapeSlashes);
    }
  }

  lemma {:induction false} PrettyMembersCounted(lib: Libc, ms: seq<Member<Json>>, level: nat, escapeSlashes: bool)
    ensures |Joined(PrettyMembers(lib, ms, level, escapeSlashes))|
            == Commas(|ms|) + PrettyMembersSize(lib, ms, level, escapeSlashes)
    decreases ms, 0
  {
    var texts := PrettyMembers(lib, ms, level, escapeSlashes);
    JoinedSize(texts);
    if ms != [] {
      BytesCounted(ms[0].key, escapeSlashes);
      PrettyCounted(lib, ms[0].value, level, escapeSlashes);
      PrettyMembersCounted(lib, ms[1..], level, escapeSlashes);
      assert texts[1..] == PrettyMembers(lib, ms[1..], level, escapeSlashes);
    }
  }

  /** The measured size of a value in either style. */
  method MeasuredSize(lib: Libc, pretty: bool, escapeSlashes: bool, v: Json) returns (size: nat)
    ensures size == 1 + if pretty then PrettySize(lib, v, 0, escapeSlashes) else CompactSize(lib, v, escapeSlashes)
  {
    size := JsonSerializer.SerializationSize(lib, Style(pretty, escapeSlashes), v);
    if pretty {
      PrintsPretty(lib, v, 0, escapeSlashes);
      PrettyCounted(lib, v, 0, escapeSlashes);
    } else {
      PrintsCompact(lib, v, 0, escapeSlashes);
      CompactCounted(lib, v, escapeSlashes);
    }
  }
}
