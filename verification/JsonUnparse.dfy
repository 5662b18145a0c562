/** The text cJSON prints for a value, formatted or not. */
module JsonUnparse {
  import opened JsonText
  import opened JsonValue

  // ---- numbers

  function Digits(n: nat): (t: seq<byte>)
    ensures |t| > 0
    ensures forall i :: 0 <= i < |t| ==> IsDigit(t[i])
  {
    if n < 10 then [ZERO + n as byte] else Digits(n / 10) + [ZERO + (n % 10) as byte]
  }

  /** `sprintf` with "%d". */
  function Decimal(n: int): seq<byte> {
    if n < 0 then [MINUS] + Digits(-n) else Digits(n)
  }

  // ---- strings

  function LowerHex(d: byte): byte
    requires d < 16
  {
    if d < 10 then ZERO + d else LOWER_A + d - 10
  }

  /** How one byte of a string is written: itself, a short escape, or a \u00XX escape. */
  function EscapeByte(b: byte): (t: seq<byte>)
    ensures |t| == 1 || |t| == 2 || |t| == 6
  {
    if b > 31 && b != QUOTE && b != BACKSLASH then [b]
    else if b == BACKSLASH then [BACKSLASH, BACKSLASH]
    else if b == QUOTE then [BACKSLASH, QUOTE]
    else if b == BACKSPACE then [BACKSLASH, LOWER_B]
    else if b == FORM_FEED then [BACKSLASH, LOWER_F]
    else if b == LINE_FEED then [BACKSLASH, LOWER_N]
    else if b == CARRIAGE_RETURN then [BACKSLASH, LOWER_R]
    else if b == TAB then [BACKSLASH, LOWER_T]
    else [BACKSLASH, LOWER_U, ZERO, ZERO, LowerHex(b / 16), LowerHex(b % 16)]
  }

  function EscapeText(s: seq<byte>): seq<byte> {
    if s == [] then [] else EscapeByte(s[0]) + EscapeText(s[1..])
  }

  function Quoted(s: seq<byte>): seq<byte> {
    [QUOTE] + EscapeText(s) + [QUOTE]
  }

  // ---- values

  function Indent(format: bool, depth: nat): seq<byte> {
    if format then seq(depth, _ => TAB) else []
  }

  /** A layout byte that only formatted output has. */
  function Layout(format: bool, b: byte): seq<byte> {
    if format then [b] else []
  }

  function Unparse(v: Json, format: bool, depth: nat): seq<byte>
    requires Printable(v)
    decreases v, 1
  {
    match v
    case Null => NULL_WORD
    case False => FALSE_WORD
    case True => TRUE_WORD
    case Number(r) => Decimal(ValueInt(r))
    case String(t) => Quoted(t)
    case Array(items) => [LBRACKET] + UnparseItems(items, format, depth + 1) + [RBRACKET]
    case Object(members) =>
      [LBRACE] + Layout(format, LINE_FEED)
      + UnparseMembers(members, format, depth + 1)
      + (Indent(format, depth) + [RBRACE])
  }

  function UnparseItems(items: seq<Json>, format: bool, depth: nat): seq<byte>
    requires PrintableItems(items)
    decreases items, 0
  {
    if items == [] then []
    else if |items| == 1 then Unparse(items[0], format, depth)
    else
      Unparse(items[0], format, depth)
      + ([COMMA] + Layout(format, SPACE))
      + UnparseItems(items[1..], format, depth)
  }

  function UnparseMembers(members: seq<Member>, format: bool, depth: nat): seq<byte>
    requires PrintableMembers(members)
    decreases members, 0
  {
    if members == [] then []
    else if |members| == 1 then UnparseMember(members[0], format, depth) + Layout(format, LINE_FEED)
    else
      UnparseMember(members[0], format, depth)
      + ([COMMA] + Layout(format, LINE_FEED))
      + UnparseMembers(members[1..], format, depth)
  }

  function UnparseMember(m: Member, format: bool, depth: nat): seq<byte>
    requires NulFree(m.key) && Printable(m.value)
    decreases m, 2
  {
    Indent(format, depth)
    + Quoted(m.key)
    + ([COLON] + Layout(format, TAB))
    + Unparse(m.value, format, depth)
  }
}
