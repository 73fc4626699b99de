/** The tree a cJSON item stands for, and the text the printer owes it. */
module JsonTree {
  import opened Bytes

  const NESTING_LIMIT := 1000
  const CIRCULAR_LIMIT := 10000

  /** Numbers are exact decimals: `valuedouble` without rounding. */
  datatype Json =
    | Null
    | Bool(b: bool)
    | Number(d: real)
    | String(s: bytes)
    | Raw(s: bytes)
    | Array(items: seq<Json>)
    | Object(members: seq<Member>)

  datatype Member = Member(key: bytes, value: Json)

  // ---------------------------------------------------------------- domains

  /** Values that `%d` prints: whole numbers that fit the C `int`. */
  predicate IntValued(d: real) {
    d == d.Floor as real && INT_MIN <= d.Floor <= INT_MAX
  }

  /** Strings and keys are C strings, numbers are int-valued. */
  ghost predicate Printable(v: Json) {
    match v
    case Null => true
    case Bool(_) => true
    case Number(d) => IntValued(d)
    case String(s) => 0 !in s
    case Raw(s) => 0 !in s
    case Array(items) => PrintableItems(items)
    case Object(members) => PrintableMembers(members)
  }

  ghost predicate PrintableItems(items: seq<Json>) {
    items == [] || (Printable(items[0]) && PrintableItems(items[1..]))
  }

  ghost predicate PrintableMembers(members: seq<Member>) {
    members == []
    || (0 !in members[0].key && Printable(members[0].value) && PrintableMembers(members[1..]))
  }

  /** No raw text anywhere: the trees the parser can give back. */
  ghost predicate RawFree(v: Json) {
    match v
    case Raw(_) => false
    case Array(items) => RawFreeItems(items)
    case Object(members) => RawFreeMembers(members)
    case _ => true
  }

  ghost predicate RawFreeItems(items: seq<Json>) {
    items == [] || (RawFree(items[0]) && RawFreeItems(items[1..]))
  }

  ghost predicate RawFreeMembers(members: seq<Member>) {
    members == [] || (RawFree(members[0].value) && RawFreeMembers(members[1..]))
  }

  function Max(a: nat, b: nat): nat {
    if a < b then b else a
  }

  /** How many arrays and objects are open at once at the deepest point. */
  function Nesting(v: Json): nat {
    match v
    case Array(items) => 1 + NestingItems(items)
    case Object(members) => 1 + NestingMembers(members)
    case _ => 0
  }

  function NestingItems(items: seq<Json>): nat {
    if items == [] then 0 else Max(Nesting(items[0]), NestingItems(items[1..]))
  }

  function NestingMembers(members: seq<Member>): nat {
    if members == [] then 0 else Max(Nesting(members[0].value), NestingMembers(members[1..]))
  }

  // ---------------------------------------------------------------- text

  const NULL_TEXT: bytes := [110, 117, 108, 108]
  const FALSE_TEXT: bytes := [102, 97, 108, 115, 101]
  const TRUE_TEXT: bytes := [116, 114, 117, 101]

  function Digits(n: nat): (r: bytes)
    ensures r != [] && forall i :: 0 <= i < |r| ==> 48 <= r[i] <= 57
  {
    if n < 10 then [48 + n] else Digits(n / 10) + [48 + n % 10]
  }

  /** `%d`. */
  function Decimal(n: int): (r: bytes)
    ensures r != [] && (r[0] == MINUS || 48 <= r[0] <= 57)
    ensures forall i :: 1 <= i < |r| ==> 48 <= r[i] <= 57
  {
    if n < 0 then [MINUS] + Digits(-n) else Digits(n)
  }

  function HexDigit(n: nat): byte
    requires n < 16
  {
    if n < 10 then 48 + n else 87 + n
  }

  function EscapeByte(c: byte): (r: bytes)
    ensures 0 < |r| && (c != 0 ==> 0 !in r)
  {
    if c == 34 then [BACKSLASH, QUOTE]
    else if c == 92 then [BACKSLASH, BACKSLASH]
    else if c == 8 then [BACKSLASH, 98]
    else if c == 12 then [BACKSLASH, 102]
    else if c == 10 then [BACKSLASH, 110]
    else if c == 13 then [BACKSLASH, 114]
    else if c == 9 then [BACKSLASH, 116]
    else if c < 32 then [BACKSLASH, LOWER_U, 48, 48, HexDigit(c / 16), HexDigit(c % 16)]
    else [c]
  }

  function Escape(s: bytes): (r: bytes)
    ensures |s| <= |r|
    ensures 0 !in s ==> 0 !in r
  {
    if s == [] then [] else EscapeByte(s[0]) + Escape(s[1..])
  }

  function RenderString(s: bytes): bytes {
    [QUOTE] + Escape(s) + [QUOTE]
  }

  /** The text of a value printed with `depth` containers open around it. */
  function Render(v: Json, format: bool, depth: nat): (r: bytes)
    requires Printable(v)
    ensures 0 !in r
    ensures !v.Raw? ==> r != []
  {
    match v
    case Null => NULL_TEXT
    case Bool(b) => if b then TRUE_TEXT else FALSE_TEXT
    case Number(d) => Decimal(d.Floor)
    case String(s) => RenderString(s)
    case Raw(s) => s
    case Array(items) => [LBRACKET] + RenderItems(items, format, depth + 1) + [RBRACKET]
    case Object(members) =>
      ObjectOpen(format) + RenderMembers(members, format, depth + 1) + ObjectClose(format, depth)
  }

  function RenderItems(items: seq<Json>, format: bool, depth: nat): (r: bytes)
    requires PrintableItems(items)
    ensures 0 !in r
  {
    if items == [] then []
    else Render(items[0], format, depth) + ItemEnd(format, items[1..] == []) + RenderItems(items[1..], format, depth)
  }

  function RenderMembers(members: seq<Member>, format: bool, depth: nat): (r: bytes)
    requires PrintableMembers(members)
    ensures 0 !in r
  {
    if members == [] then []
    else
      Indent(format, depth) + RenderString(members[0].key) + KeyEnd(format)
      + Render(members[0].value, format, depth) + MemberEnd(format, members[1..] == [])
      + RenderMembers(members[1..], format, depth)
  }

  function Indent(format: bool, depth: nat): bytes {
    if format then Repeat(TAB, depth) else []
  }

  function ItemEnd(format: bool, last: bool): bytes {
    if last then [] else if format then [COMMA, SPACE] else [COMMA]
  }

  function KeyEnd(format: bool): bytes {
    if format then [COLON, TAB] else [COLON]
  }

  function MemberEnd(format: bool, last: bool): bytes {
    (if last then [] else [COMMA]) + (if format then [NEWLINE] else [])
  }

  function ObjectOpen(format: bool): bytes {
    if format then [LBRACE, NEWLINE] else [LBRACE]
  }

  function ObjectClose(format: bool, depth: nat): bytes {
    Indent(format, depth) + [RBRACE]
  }
}
