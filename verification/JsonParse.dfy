/** What cJSON's parser computes, as functions of the text: the value and where the cursor ends. */
module JsonParse {
  import opened JsonText
  import opened JsonValue

  const NESTING_LIMIT: nat := 1000

  /** On success the value and the offset behind it, on failure the offset the error is reported at. */
  datatype ParseResult = Parsed(value: Json, pos: nat) | Failed(pos: nat)

  // ---- white space

  function FirstNonBlank(c: seq<byte>, p: nat): (q: nat)
    requires p <= |c|
    ensures p <= q <= |c|
    ensures forall i :: p <= i < q ==> c[i] <= SPACE
    ensures q < |c| ==> c[q] > SPACE
    decreases |c| - p
  {
    if p < |c| && c[p] <= SPACE then FirstNonBlank(c, p + 1) else p
  }

  /** Skipping to the very end steps back onto the last byte. */
  function Skip(c: seq<byte>, p: nat): (q: nat)
    requires p <= |c|
    ensures p <= q <= |c|
    ensures p < |c| ==> q < |c|
  {
    if p == |c| then p
    else
      var q := FirstNonBlank(c, p);
      if q == |c| then q - 1 else q
  }

  // ---- numbers

  const NUMBER_BUFFER := 63

  predicate IsNumberByte(b: byte) {
    IsDigit(b) || b == PLUS || b == MINUS || b == LOWER_E || b == UPPER_E || b == DOT
  }

  /** The bytes handed to `strtod`: a run of number bytes, cut at the size of the temporary buffer. */
  function NumberRun(c: seq<byte>, p: nat, room: nat): (t: seq<byte>)
    requires p <= |c|
    ensures |t| <= room && At(c, p, t)
    ensures forall i :: 0 <= i < |t| ==> IsNumberByte(t[i])
    ensures |t| < room && p + |t| < |c| ==> !IsNumberByte(c[p + |t|])
    decreases room
  {
    if room == 0 || p == |c| || !IsNumberByte(c[p]) then []
    else [c[p]] + NumberRun(c, p + 1, room - 1)
  }

  predicate AllDigits(t: seq<byte>) {
    forall i :: 0 <= i < |t| ==> IsDigit(t[i])
  }

  function DigitsEnd(t: seq<byte>, i: nat): (j: nat)
    requires i <= |t|
    ensures i <= j <= |t|
    ensures AllDigits(t[i..j])
    ensures j < |t| ==> !IsDigit(t[j])
    decreases |t| - i
  {
    if i < |t| && IsDigit(t[i]) then DigitsEnd(t, i + 1) else i
  }

  function DigitsValue(t: seq<byte>): nat
    requires AllDigits(t)
  {
    if t == [] then 0 else
      var last := t[|t| - 1];
      assert IsDigit(last);
      10 * DigitsValue(t[..|t| - 1]) + (last - ZERO) as nat
  }

  function PowerOfTen(n: nat): (r: real)
    ensures r > 0.0
  {
    if n == 0 then 1.0 else 10.0 * PowerOfTen(n - 1)
  }

  function Scale(m: real, e: int): real {
    if e >= 0 then m * PowerOfTen(e) else m / PowerOfTen(-e)
  }

  /** Where an exponent that starts at i ends, and its value; without digits it does not count. */
  function Exponent(t: seq<byte>, i: nat): (r: (nat, int))
    requires i <= |t|
    ensures i <= r.0 <= |t|
  {
    if i < |t| && (t[i] == LOWER_E || t[i] == UPPER_E) then
      var signed := i + 1 < |t| && (t[i + 1] == MINUS || t[i + 1] == PLUS);
      var first := if signed then i + 2 else i + 1;
      var last := DigitsEnd(t, first);
      if last == first then (i, 0)
      else
        var e: int := DigitsValue(t[first..last]);
        (last, if signed && t[i + 1] == MINUS then -e else e)
    else (i, 0)
  }

  /** `strtod` on digits, signs, points and exponents: how many bytes it takes and the exact value. */
  function Strtod(t: seq<byte>): (r: (nat, real))
    ensures r.0 <= |t|
  {
    var signed := |t| > 0 && (t[0] == MINUS || t[0] == PLUS);
    var start := if signed then 1 else 0;
    var whole := DigitsEnd(t, start);
    var point := whole < |t| && t[whole] == DOT;
    var fraction := if point then whole + 1 else whole;
    var end := DigitsEnd(t, fraction);
    if whole == start && end == fraction then (0, 0.0)
    else
      var digits := DigitsValue(t[start..whole] + t[fraction..end]) as real;
      var m := if signed && t[0] == MINUS then -digits else digits;
      var (last, e) := Exponent(t, end);
      (last, Scale(m, fraction - end + e))
  }

  function ParseNumber(c: seq<byte>, p: nat): (r: ParseResult)
    requires p <= |c|
    ensures p <= r.pos <= |c|
    ensures r.Parsed? ==> p < r.pos
  {
    var (length, value) := Strtod(NumberRun(c, p, NUMBER_BUFFER));
    if length == 0 then Failed(p) else Parsed(Number(value), p + length)
  }

  // ---- strings

  /** Where the closing quote is and how many escapes precede it. */
  datatype ScanResult = Closed(end: nat, escapes: nat) | Unclosed

  /** First pass over a string literal: every backslash hides the byte after it. */
  function Scan(c: seq<byte>, p: nat): (r: ScanResult)
    requires p <= |c|
    ensures r.Closed? ==> p <= r.end < |c| && c[r.end] == QUOTE
    decreases |c| - p
  {
    if p == |c| then Unclosed
    else if c[p] == QUOTE then Closed(p, 0)
    else if c[p] == BACKSLASH then
      if p + 1 == |c| then Unclosed
      else
        var r := Scan(c, p + 2);
        if r.Closed? then Closed(r.end, r.escapes + 1) else Unclosed
    else Scan(c, p + 1)
  }

  function HexDigit(b: byte): (d: int)
    ensures -1 <= d < 16
  {
    if ZERO <= b <= NINE then (b - ZERO) as int
    else if UPPER_A <= b <= UPPER_F then (10 + b - UPPER_A) as int
    else if LOWER_A <= b <= LOWER_F then (10 + b - LOWER_A) as int
    else -1
  }

  predicate IsHex4(h: seq<byte>)
    requires |h| == 4
  {
    forall i :: 0 <= i < 4 ==> HexDigit(h[i]) >= 0
  }

  /** Four hexadecimal digits; anything else counts as 0. */
  function Hex4(h: seq<byte>): (code: nat)
    requires |h| == 4
    ensures code < 0x1_0000
  {
    if IsHex4(h)
    then 0x1000 * HexDigit(h[0]) + 0x100 * HexDigit(h[1]) + 0x10 * HexDigit(h[2]) + HexDigit(h[3])
    else 0
  }

  /** 10xxxxxx */
  function Continuation(bits: nat): byte {
    (0x80 + bits % 0x40) as byte
  }

  /** The UTF-8 bytes of a code point. */
  function Utf8(code: nat): (u: seq<byte>)
    requires code <= 0x10_FFFF
    ensures 1 <= |u| <= 4
    ensures |u| == 4 <==> code >= 0x1_0000
  {
    if code < 0x80 then [code as byte]
    else if code < 0x800 then [(0xC0 + code / 0x40) as byte, Continuation(code)]
    else if code < 0x1_0000 then
      [(0xE0 + code / 0x1000) as byte, Continuation(code / 0x40), Continuation(code)]
    else
      [(0xF0 + code / 0x4_0000) as byte, Continuation(code / 0x1000), Continuation(code / 0x40), Continuation(code)]
  }

  /** An escape's output and the number of input bytes it takes. */
  datatype EscapeResult = Escape(length: nat, bytes: seq<byte>) | BadEscape

  function Utf16Escape(c: seq<byte>, p: nat, end: nat): (r: EscapeResult)
    requires p <= end <= |c|
    ensures r.Escape? ==> (r.length == 6 || r.length == 12) && p + r.length <= end
    ensures r.Escape? ==> 1 <= |r.bytes| <= 4 && (|r.bytes| == 4 ==> r.length == 12)
  {
    if end - p < 6 then BadEscape
    else
      var first := Hex4(c[p + 2..p + 6]);
      if 0xDC00 <= first <= 0xDFFF then BadEscape
      else if 0xD800 <= first <= 0xDBFF then
        if end - p < 12 || c[p + 6] != BACKSLASH || c[p + 7] != LOWER_U then BadEscape
        else
          var second := Hex4(c[p + 8..p + 12]);
          if second < 0xDC00 || second > 0xDFFF then BadEscape
          else Escape(12, Utf8(0x1_0000 + (first % 0x400) * 0x400 + second % 0x400))
      else Escape(6, Utf8(first))
  }

  function EscapeAt(c: seq<byte>, p: nat, end: nat): (r: EscapeResult)
    requires p < end < |c|
    ensures r.Escape? ==> 1 <= |r.bytes| <= 4 && |r.bytes| < r.length
    ensures r.Escape? ==> p + r.length <= end + 1
    ensures r.Escape? && r.length != 2 ==> p + r.length <= end
  {
    var b := c[p + 1];
    if b == LOWER_B then Escape(2, [BACKSPACE])
    else if b == LOWER_F then Escape(2, [FORM_FEED])
    else if b == LOWER_N then Escape(2, [LINE_FEED])
    else if b == LOWER_R then Escape(2, [CARRIAGE_RETURN])
    else if b == LOWER_T then Escape(2, [TAB])
    else if b == QUOTE || b == BACKSLASH || b == SLASH then Escape(2, [b])
    else if b == LOWER_U then Utf16Escape(c, p, end)
    else BadEscape
  }

  datatype UnescapeResult = Unescaped(bytes: seq<byte>) | BadAt(pos: nat)

  /** Second pass over a string literal: the bytes it stands for. */
  function Unescape(c: seq<byte>, p: nat, end: nat): (r: UnescapeResult)
    requires end < |c|
    ensures r.BadAt? ==> p <= r.pos < end
    decreases end - p
  {
    if p >= end then Unescaped([])
    else if c[p] != BACKSLASH then
      var rest := Unescape(c, p + 1, end);
      if rest.BadAt? then rest else Unescaped([c[p]] + rest.bytes)
    else
      var e := EscapeAt(c, p, end);
      if e.BadEscape? then BadAt(p)
      else
        var rest := Unescape(c, p + e.length, end);
        if rest.BadAt? then rest else Unescaped(e.bytes + rest.bytes)
  }

  function ParseString(c: seq<byte>, p: nat): (r: ParseResult)
    requires p < |c|
    ensures p < r.pos <= |c|
    ensures r.Parsed? ==> r.value.String? && NulFree(r.value.text) && p + 2 <= r.pos
  {
    if c[p] != QUOTE then Failed(p + 1)
    else
      var scan := Scan(c, p + 1);
      if scan.Unclosed? then Failed(p + 1)
      else
        var u := Unescape(c, p + 1, scan.end);
        if u.BadAt? then Failed(u.pos) else Parsed(String(CString(u.bytes)), scan.end + 1)
  }

  // ---- values

  function ParseValue(c: seq<byte>, p: nat, depth: nat): (r: ParseResult)
    requires p <= |c|
    ensures p <= r.pos <= |c|
    ensures r.Parsed? ==> p < r.pos
    decreases |c| - p, 1
  {
    if At(c, p, NULL_WORD) then Parsed(Null, p + 4)
    else if At(c, p, FALSE_WORD) then Parsed(False, p + 5)
    else if At(c, p, TRUE_WORD) then Parsed(True, p + 4)
    else if p == |c| then Failed(p)
    else if c[p] == QUOTE then ParseString(c, p)
    else if c[p] == MINUS || IsDigit(c[p]) then ParseNumber(c, p)
    else if c[p] == LBRACKET then ParseArray(c, p, depth)
    else if c[p] == LBRACE then ParseObject(c, p, depth)
    else Failed(p)
  }

  function ParseArray(c: seq<byte>, p: nat, depth: nat): (r: ParseResult)
    requires p < |c|
    ensures p <= r.pos <= |c|
    ensures r.Parsed? ==> p < r.pos
    decreases |c| - p, 0
  {
    if depth >= NESTING_LIMIT then Failed(p)
    else
      var q := Skip(c, p + 1);
      if q == |c| then Failed(p)
      else if c[q] == RBRACKET then Parsed(Array([]), q + 1)
      else
        var r := ParseItems(c, q, depth + 1);
        if r.NoItems? then Failed(r.pos) else Parsed(Array(r.items), r.pos)
  }

  datatype ItemsResult = Items(items: seq<Json>, pos: nat) | NoItems(pos: nat)

  /** Comma-separated values up to and including the closing bracket. */
  function ParseItems(c: seq<byte>, p: nat, depth: nat): (r: ItemsResult)
    requires p <= |c|
    ensures p <= r.pos <= |c|
    ensures r.Items? ==> p < r.pos && |r.items| > 0
    decreases |c| - p, 2
  {
    var first := ParseValue(c, p, depth);
    if first.Failed? then NoItems(first.pos)
    else
      var q := Skip(c, first.pos);
      if q < |c| && c[q] == COMMA then
        var rest := ParseItems(c, Skip(c, q + 1), depth);
        if rest.NoItems? then rest else Items([first.value] + rest.items, rest.pos)
      else if q < |c| && c[q] == RBRACKET then Items([first.value], q + 1)
      else NoItems(q)
  }

  function ParseObject(c: seq<byte>, p: nat, depth: nat): (r: ParseResult)
    requires p < |c|
    ensures p <= r.pos <= |c|
    ensures r.Parsed? ==> p < r.pos
    decreases |c| - p, 0
  {
    if depth >= NESTING_LIMIT then Failed(p)
    else
      var q := Skip(c, p + 1);
      if q == |c| then Failed(p)
      else if c[q] == RBRACE then Parsed(Object([]), q + 1)
      else
        var r := ParseMembers(c, q, depth + 1);
        if r.NoMembers? then Failed(r.pos) else Parsed(Object(r.members), r.pos)
  }

  datatype MemberResult = OneMember(member: Member, pos: nat) | NoMember(pos: nat)

  /** A key, a colon and a value. */
  function ParseMember(c: seq<byte>, p: nat, depth: nat): (r: MemberResult)
    requires p < |c|
    ensures p <= r.pos <= |c|
    ensures r.OneMember? ==> p < r.pos
    decreases |c| - p, 2
  {
    var key := ParseString(c, p);
    if key.Failed? then NoMember(key.pos)
    else
      var colon := Skip(c, key.pos);
      if colon == |c| || c[colon] != COLON then NoMember(colon)
      else
        var value := ParseValue(c, Skip(c, colon + 1), depth);
        if value.Failed? then NoMember(value.pos)
        else OneMember(Member(key.value.text, value.value), value.pos)
  }

  datatype MembersResult = Members(members: seq<Member>, pos: nat) | NoMembers(pos: nat)

  /** Comma-separated members up to and including the closing brace. */
  function ParseMembers(c: seq<byte>, p: nat, depth: nat): (r: MembersResult)
    requires p <= |c|
    ensures p <= r.pos <= |c|
    ensures r.Members? ==> p < r.pos && |r.members| > 0
    decreases |c| - p, 3
  {
    if p == |c| then NoMembers(p)
    else
      var first := ParseMember(c, p, depth);
      if first.NoMember? then NoMembers(first.pos)
      else
        var q := Skip(c, first.pos);
        if q < |c| && c[q] == COMMA then
          var rest := ParseMembers(c, Skip(c, q + 1), depth);
          if rest.NoMembers? then rest else Members([first.member] + rest.members, rest.pos)
        else if q < |c| && c[q] == RBRACE then Members([first.member], q + 1)
        else NoMembers(q)
  }

  /** The byte order mark is skipped only when two more bytes follow it. */
  function SkipMark(c: seq<byte>): (p: nat)
    ensures p <= |c|
  {
    if |c| > 4 && c[0] == 0xEF && c[1] == 0xBB && c[2] == 0xBF then 3 else 0
  }

  /** `cJSON_Parse` on the bytes of a C string with its terminating NUL. */
  function Parse(c: seq<byte>): ParseResult
    requires |c| > 0
  {
    ParseValue(c, Skip(c, SkipMark(c)), 0)
  }
}
