/** JSON values as trees, and the two libc calls through which numbers become text and back. */
module JsonTrees {
  import opened AssocLists
  import opened Bytes
  import opened Options

  datatype Json =
    | Null
    | Boolean(b: bool)
    | Number(x: real)
    | Str(chars: seq<byte>)
    | Array(items: seq<Json>)
    | Object(members: seq<Member<Json>>)

  /** Objects hold each name once, all the way down. */
  ghost predicate Valid(v: Json) {
    match v
    case Array(items) => forall i :: 0 <= i < |items| ==> Valid(items[i])
    case Object(ms) => DistinctKeys(ms) && forall i :: 0 <= i < |ms| ==> Valid(ms[i].value)
    case _ => true
  }

  /** How far the deepest value lies below `v`. */
  ghost function Height(v: Json): nat {
    match v
    case Array(items) => ItemsHeight(items)
    case Object(ms) => MembersHeight(ms)
    case _ => 0
  }

  ghost function ItemsHeight(items: seq<Json>): nat {
    if items == [] then 0 else Max(1 + Height(items[0]), ItemsHeight(items[1..]))
  }

  ghost function MembersHeight(ms: seq<Member<Json>>): nat {
    if ms == [] then 0 else Max(1 + Height(ms[0].value), MembersHeight(ms[1..]))
  }

  function Max(a: nat, b: nat): nat {
    if a >= b then a else b
  }

  /** What `strtod` makes of the text at the cursor: a finite number or none, and the bytes it took. */
  datatype NumberRead = NumberRead(value: Option<real>, length: nat)

  datatype LibcCalls = LibcCalls(format: real -> seq<byte>, strtod: seq<byte> -> NumberRead)

  /** `sprintf` gives a C string, and `strtod` never takes the terminating NUL. */
  type Libc = lib: LibcCalls |
      (forall x: real :: 0 !in lib.format(x)) && (forall t: seq<byte> :: |t| > 0 ==> lib.strtod(t).length < |t|)
    witness LibcCalls((x: real) => [], (t: seq<byte>) => NumberRead(None, 0))

  predicate IsDigit(c: byte) {
    '0' as int <= c <= '9' as int
  }

  /** Bytes with which the text of a decimal number could go on. */
  predicate ContinuesNumber(c: byte) {
    IsDigit(c) || c == '.' as int || c == 'e' as int || c == 'E' as int || c == 'x' as int || c == 'X' as int
  }

  /** `is_decimal`: no leading zeros and no hexadecimal marker. */
  predicate IsDecimal(t: seq<byte>) {
    && !(|t| > 1 && t[0] == '0' as int && t[1] != '.' as int)
    && !(|t| > 2 && t[0] == '-' as int && t[1] == '0' as int && t[2] != '.' as int)
    && forall k :: 0 <= k < |t| ==> t[k] != 'x' as int && t[k] != 'X' as int
  }

  predicate NumberByte(c: byte) {
    IsDigit(c) || c == '.' as int || c == '-' as int || c == '+' as int || c == 'e' as int
  }

  /** The printed form of `x` is a decimal number that `strtod` reads back, whatever stands behind it. */
  ghost predicate ReadsBack(lib: Libc, x: real) {
    var t := lib.format(x);
    && |t| > 0 && (IsDigit(t[0]) || t[0] == '-' as int)
    && (forall k :: 0 <= k < |t| ==> NumberByte(t[k]))
    && IsDecimal(t)
    && forall rest: seq<byte> :: |rest| > 0 && !ContinuesNumber(rest[0])
                                 ==> lib.strtod(t + rest) == NumberRead(Some(x), |t|)
  }

  ghost predicate NumbersReadBack(lib: Libc, v: Json) {
    match v
    case Number(x) => ReadsBack(lib, x)
    case Array(items) => forall i :: 0 <= i < |items| ==> NumbersReadBack(lib, items[i])
    case Object(ms) => forall i :: 0 <= i < |ms| ==> NumbersReadBack(lib, ms[i].value)
    case _ => true
  }

  predicate IsInteger(x: real) {
    x == x.Floor as real
  }

  /** Every number of the tree is an integer. */
  ghost predicate Integral(v: Json) {
    match v
    case Number(x) => IsInteger(x)
    case Array(items) => forall i :: 0 <= i < |items| ==> Integral(items[i])
    case Object(ms) => forall i :: 0 <= i < |ms| ==> Integral(ms[i].value)
    case _ => true
  }
}
