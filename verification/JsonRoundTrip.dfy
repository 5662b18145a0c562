/** Parsing undoes printing. */
module JsonRoundTrip {
  import opened JsonText
  import opened JsonValue
  import opened JsonParse
  import opened JsonUnparse

  // ---- white space

  lemma SkipOver(c: seq<byte>, p: nat, blanks: seq<byte>)
    requires At(c, p, blanks) && forall i :: 0 <= i < |blanks| ==> blanks[i] <= SPACE
    requires p + |blanks| < |c| && c[p + |blanks|] > SPACE
    ensures Skip(c, p) == p + |blanks|
  {
    var q := FirstNonBlank(c, p);
    forall i | p <= i < p + |blanks|
      ensures c[i] <= SPACE
    {
      AtIndex(c, p, blanks, i - p);
    }
    assert q == p + |blanks|;
  }

  lemma SkipNothing(c: seq<byte>, p: nat)
    requires p < |c| && (c[p] == COMMA || c[p] > SPACE)
    ensures Skip(c, p) == p
  {
  }

  // ---- numbers

  lemma {:induction false} DigitsValueOfDigits(n: nat)
    ensures AllDigits(Digits(n)) && DigitsValue(Digits(n)) == n
  {
    if n < 10 {
      assert Digits(n)[..0] == [];
    } else {
      DigitsValueOfDigits(n / 10);
      assert Digits(n)[..|Digits(n)| - 1] == Digits(n / 10);
    }
  }

  lemma {:induction false} DigitCount(n: nat, k: nat, bound: nat)
    requires n < bound && 10 <= bound && k > 0
    requires bound <= PowerOfTenNat(k)
    ensures |Digits(n)| <= k
    decreases k
  {
    if n >= 10 {
      DigitCount(n / 10, k - 1, PowerOfTenNat(k - 1));
    }
  }

  function PowerOfTenNat(k: nat): nat {
    if k == 0 then 1 else 10 * PowerOfTenNat(k - 1)
  }

  lemma DecimalIsShort(n: int)
    requires INT_MIN <= n <= INT_MAX
    ensures |Decimal(n)| <= 11
  {
    assert PowerOfTenNat(10) == 100_0000_0000;
    DigitCount(if n < 0 then -n else n, 10, PowerOfTenNat(10));
  }

  lemma {:induction false} DigitsEndOfAll(t: seq<byte>, i: nat)
    requires i <= |t| && AllDigits(t[i..])
    ensures DigitsEnd(t, i) == |t|
    decreases |t| - i
  {
    if i < |t| {
      assert t[i..][0] == t[i];
      assert t[i + 1..] == t[i..][1..];
      DigitsEndOfAll(t, i + 1);
    }
  }

  lemma StrtodOfDecimal(n: int)
    ensures Strtod(Decimal(n)) == (|Decimal(n)|, n as real)
  {
    var t := Decimal(n);
    var m := if n < 0 then -n else n;
    var start := if n < 0 then 1 else 0;
    DigitsValueOfDigits(m);
    assert t[start..] == Digits(m);
    DigitsEndOfAll(t, start);
    assert DigitsEnd(t, start) == |t|;
    assert DigitsEnd(t, |t|) == |t|;
    assert t[start..|t|] + t[|t|..|t|] == Digits(m);
    assert PowerOfTen(0) == 1.0;
  }

  lemma {:induction false} NumberRunOf(c: seq<byte>, p: nat, t: seq<byte>, room: nat)
    requires At(c, p, t) && |t| < room
    requires forall i :: 0 <= i < |t| ==> IsNumberByte(t[i])
    requires p + |t| < |c| && !IsNumberByte(c[p + |t|])
    ensures NumberRun(c, p, room) == t
    decreases |t|
  {
    if t != [] {
      AtIndex(c, p, t, 0);
      assert t == [t[0]] + t[1..];
      AtParts(c, p, [t[0]], t[1..]);
      NumberRunOf(c, p + 1, t[1..], room - 1);
    }
  }

  lemma ValueIntInRange(r: real)
    ensures INT_MIN <= ValueInt(r) <= INT_MAX
  {
  }

  lemma ParseDecimal(c: seq<byte>, p: nat, r: real, end: nat)
    requires IsInt(r)
    requires At(c, p, Decimal(ValueInt(r)))
    requires end == p + |Decimal(ValueInt(r))| < |c| && !IsNumberByte(c[end])
    ensures ParseNumber(c, p) == Parsed(Number(r), end)
  {
    var n := ValueInt(r);
    ValueIntInRange(r);
    DecimalIsShort(n);
    NumberRunOf(c, p, Decimal(n), NUMBER_BUFFER);
    StrtodOfDecimal(n);
  }

  // ---- strings

  lemma HexOfDigit(d: byte)
    requires d < 16
    ensures HexDigit(LowerHex(d)) == d as int
  {
  }

  lemma HexOfByte(b: byte, h: seq<byte>)
    requires h == [ZERO, ZERO, LowerHex(b / 16), LowerHex(b % 16)]
    ensures IsHex4(h) && Hex4(h) == b as nat
  {
    HexOfDigit(0);
    HexOfDigit(b / 16);
    HexOfDigit(b % 16);
    hide HexDigit, LowerHex;
  }

  /** A \u00XX escape stands for its byte. */
  lemma ControlByteDecodes(c: seq<byte>, p: nat, b: byte, end: nat)
    requires 0 < b <= 31 && p + 6 <= end < |c|
    requires c[p..p + 6] == [BACKSLASH, LOWER_U, ZERO, ZERO, LowerHex(b / 16), LowerHex(b % 16)]
    ensures EscapeAt(c, p, end) == Escape(6, [b])
  {
    hide LowerHex, Hex4, IsHex4;
    var t := c[p..p + 6];
    assert c[p + 1] == t[1];
    assert c[p + 2..p + 6] == t[2..] == [ZERO, ZERO, LowerHex(b / 16), LowerHex(b % 16)];
    HexOfByte(b, c[p + 2..p + 6]);
  }

  /** The escape of one byte starts with a backslash or is the byte itself, and decodes to it. */
  lemma EscapeByteDecodes(c: seq<byte>, p: nat, b: byte, end: nat)
    requires b != NUL && At(c, p, EscapeByte(b)) && p + |EscapeByte(b)| <= end < |c|
    ensures |EscapeByte(b)| == 1 ==> c[p] == b != BACKSLASH && b != QUOTE
    ensures |EscapeByte(b)| > 1 ==> c[p] == BACKSLASH && EscapeAt(c, p, end) == Escape(|EscapeByte(b)|, [b])
  {
    hide Utf16Escape, LowerHex;
    var t := EscapeByte(b);
    AtIndex(c, p, t, 0);
    if |t| == 6 {
      ControlByteDecodes(c, p, b, end);
    } else if |t| == 2 {
      AtIndex(c, p, t, 1);
    }
  }

  /** The first pass walks over the escape of one byte, whatever that escape is. */
  lemma EscapeByteScans(c: seq<byte>, p: nat, b: byte)
    requires At(c, p, EscapeByte(b)) && p + |EscapeByte(b)| < |c|
    requires Scan(c, p + |EscapeByte(b)|).Closed?
    ensures Scan(c, p).Closed? && Scan(c, p).end == Scan(c, p + |EscapeByte(b)|).end
  {
    var t := EscapeByte(b);
    AtIndex(c, p, t, 0);
    if |t| > 1 {
      AtIndex(c, p, t, 1);
      if |t| == 6 {
        AtIndex(c, p, t, 2);
        AtIndex(c, p, t, 3);
        AtIndex(c, p, t, 4);
        AtIndex(c, p, t, 5);
        assert Scan(c, p + 5).Closed? && Scan(c, p + 5).end == Scan(c, p + 6).end;
        assert Scan(c, p + 4).Closed? && Scan(c, p + 4).end == Scan(c, p + 6).end;
        assert Scan(c, p + 3).Closed? && Scan(c, p + 3).end == Scan(c, p + 6).end;
        assert Scan(c, p + 2).Closed? && Scan(c, p + 2).end == Scan(c, p + 6).end;
      }
    }
  }

  lemma {:induction false} ScanEscapeText(c: seq<byte>, p: nat, s: seq<byte>)
    requires At(c, p, EscapeText(s))
    requires p + |EscapeText(s)| < |c| && c[p + |EscapeText(s)|] == QUOTE
    ensures Scan(c, p).Closed? && Scan(c, p).end == p + |EscapeText(s)|
    decreases |s|
  {
    hide At, EscapeByte;
    if s != [] {
      AtParts(c, p, EscapeByte(s[0]), EscapeText(s[1..]));
      ScanEscapeText(c, p + |EscapeByte(s[0])|, s[1..]);
      EscapeByteScans(c, p, s[0]);
    }
  }

  lemma {:induction false} UnescapeEscapeText(c: seq<byte>, p: nat, s: seq<byte>, end: nat)
    requires NulFree(s) && At(c, p, EscapeText(s)) && p + |EscapeText(s)| == end < |c|
    ensures Unescape(c, p, end) == Unescaped(s)
    decreases |s|
  {
    hide At, EscapeByte, EscapeAt;
    if s != [] {
      AtParts(c, p, EscapeByte(s[0]), EscapeText(s[1..]));
      EscapeByteDecodes(c, p, s[0], end);
      UnescapeEscapeText(c, p + |EscapeByte(s[0])|, s[1..], end);
    }
  }

  /** A printed string or key parses back to every byte of the original. */
  lemma ParseQuoted(c: seq<byte>, p: nat, s: seq<byte>)
    requires NulFree(s) && At(c, p, Quoted(s))
    ensures p < |c|
    ensures ParseString(c, p) == Parsed(String(s), p + |Quoted(s)|)
  {
    hide At, EscapeText, Scan, Unescape, CString;
    AtParts(c, p, [QUOTE] + EscapeText(s), [QUOTE]);
    AtParts(c, p, [QUOTE], EscapeText(s));
    AtIndex(c, p, [QUOTE], 0);
    AtIndex(c, p + 1 + |EscapeText(s)|, [QUOTE], 0);
    ScanEscapeText(c, p + 1, s);
    UnescapeEscapeText(c, p + 1, s, p + 1 + |EscapeText(s)|);
    CStringOfNulFree(s);
  }

  // ---- values

  lemma HeadAndTail<T>(s: seq<T>)
    requires s != []
    ensures [s[0]] + s[1..] == s
    ensures |s| == 1 ==> [s[0]] == s
  {
  }

  /** What tells the kinds of values apart. */
  lemma FirstByte(v: Json, format: bool, depth: nat)
    requires Printable(v)
    ensures |Unparse(v, format, depth)| > 0
    ensures Unparse(v, format, depth)[0] ==
            match v
            case Null => LOWER_N
            case False => LOWER_F
            case True => LOWER_T
            case Number(r) => Decimal(ValueInt(r))[0]
            case String(_) => QUOTE
            case Array(_) => LBRACKET
            case Object(_) => LBRACE
    ensures v.Number? ==> IsDigit(Unparse(v, format, depth)[0]) || Unparse(v, format, depth)[0] == MINUS
  {
  }

  /** A literal starts with its own letter. */
  lemma OtherWords(c: seq<byte>, p: nat)
    requires p < |c|
    ensures c[p] != LOWER_N ==> !At(c, p, NULL_WORD)
    ensures c[p] != LOWER_F ==> !At(c, p, FALSE_WORD)
    ensures c[p] != LOWER_T ==> !At(c, p, TRUE_WORD)
  {
    if At(c, p, NULL_WORD) { AtIndex(c, p, NULL_WORD, 0); }
    if At(c, p, FALSE_WORD) { AtIndex(c, p, FALSE_WORD, 0); }
    if At(c, p, TRUE_WORD) { AtIndex(c, p, TRUE_WORD, 0); }
  }

  /** Printed text of a value, followed by anything that does not continue a number, parses back. */
  lemma {:induction false} ParseUnparse(
      c: seq<byte>, p: nat, v: Json, format: bool, indent: nat, depth: nat, end: nat)
    requires Printable(v) && depth <= NESTING_LIMIT && Fits(v, NESTING_LIMIT - depth)
    requires At(c, p, Unparse(v, format, indent))
    requires end == p + |Unparse(v, format, indent)| < |c| && !IsNumberByte(c[end])
    ensures ParseValue(c, p, depth) == Parsed(v, end)
    decreases v, 1
  {
    var t := Unparse(v, format, indent);
    FirstByte(v, format, indent);
    AtIndex(c, p, t, 0);
    match v {
      case Null =>
      case False => OtherWords(c, p);
      case True => OtherWords(c, p);
      case Number(r) =>
        OtherWords(c, p);
        ParseDecimal(c, p, r, end);
      case String(s) =>
        OtherWords(c, p);
        ParseQuoted(c, p, s);
      case Array(items) =>
        OtherWords(c, p);
        ParseUnparsedArray(c, p, items, format, indent, depth);
      case Object(members) =>
        OtherWords(c, p);
        ParseUnparsedObject(c, p, members, format, indent, depth);
    }
  }

  /** Opening bracket, items, closing bracket. */
  lemma ArrayParts(c: seq<byte>, p: nat, items: seq<Json>, format: bool, indent: nat, end: nat)
    requires Printable(Array(items))
    requires At(c, p, Unparse(Array(items), format, indent))
    requires end == p + 1 + |UnparseItems(items, format, indent + 1)|
    ensures p < |c| && At(c, p + 1, UnparseItems(items, format, indent + 1))
    ensures end < |c| && c[end] == RBRACKET && end + 1 == p + |Unparse(Array(items), format, indent)|
  {
    hide At, UnparseItems;
    var body := UnparseItems(items, format, indent + 1);
    AtParts(c, p, [LBRACKET] + body, [RBRACKET]);
    assert p + |[LBRACKET] + body| == end;
    AtParts(c, p, [LBRACKET], body);
    AtIndex(c, p, [LBRACKET], 0);
    AtIndex(c, end, [RBRACKET], 0);
  }

  lemma {:induction false} ParseUnparsedArray(
      c: seq<byte>, p: nat, items: seq<Json>, format: bool, indent: nat, depth: nat)
    requires Printable(Array(items)) && depth <= NESTING_LIMIT && Fits(Array(items), NESTING_LIMIT - depth)
    requires At(c, p, Unparse(Array(items), format, indent))
    ensures p < |c|
    ensures ParseArray(c, p, depth) == Parsed(Array(items), p + |Unparse(Array(items), format, indent)|)
    decreases items, 3
  {
    hide At, ParseValue, ParseItems, Skip, Unparse;
    var body := UnparseItems(items, format, indent + 1);
    var end := p + 1 + |body|;
    ArrayParts(c, p, items, format, indent, end);
    if items == [] {
      SkipNothing(c, p + 1);
    } else {
      ItemsStart(items, format, indent + 1);
      AtIndex(c, p + 1, body, 0);
      SkipNothing(c, p + 1);
      ParseUnparsedItems(c, p + 1, items, format, indent + 1, depth + 1, end);
    }
  }

  lemma ItemsStart(items: seq<Json>, format: bool, indent: nat)
    requires items != [] && PrintableItems(items)
    ensures |UnparseItems(items, format, indent)| > 0
    ensures UnparseItems(items, format, indent)[0] > SPACE
    ensures UnparseItems(items, format, indent)[0] != RBRACKET
  {
    FirstByte(items[0], format, indent);
  }

  /** A bracket after a value ends the list. */
  lemma ParseItemsLast(c: seq<byte>, p: nat, items: seq<Json>, q: nat, depth: nat)
    requires |items| == 1 && p <= |c| && ParseValue(c, p, depth) == Parsed(items[0], q)
    requires q < |c| && c[q] == RBRACKET
    ensures ParseItems(c, p, depth) == Items(items, q + 1)
  {
    hide ParseValue, At;
    HeadAndTail(items);
  }

  /** A comma after a value leads to the rest of the list. */
  lemma ParseItemsMore(c: seq<byte>, p: nat, items: seq<Json>, q: nat, depth: nat, end: nat)
    requires items != [] && p <= |c| && ParseValue(c, p, depth) == Parsed(items[0], q)
    requires q < |c| && c[q] == COMMA
    requires ParseItems(c, Skip(c, q + 1), depth) == Items(items[1..], end)
    ensures ParseItems(c, p, depth) == Items(items, end)
  {
    hide ParseValue, Skip, At;
    SkipNothing(c, q);
    HeadAndTail(items);
  }

  lemma UnparseOne(items: seq<Json>, format: bool, indent: nat)
    requires |items| == 1 && PrintableItems(items)
    ensures UnparseItems(items, format, indent) == Unparse(items[0], format, indent)
  {
  }

  lemma UnparseTwoOrMore(items: seq<Json>, format: bool, indent: nat)
    requires |items| > 1 && PrintableItems(items)
    ensures PrintableItems(items[1..])
    ensures UnparseItems(items, format, indent)
         == Unparse(items[0], format, indent) + ([COMMA] + Layout(format, SPACE))
            + UnparseItems(items[1..], format, indent)
    ensures |UnparseItems(items[1..], format, indent)| > 0 && UnparseItems(items[1..], format, indent)[0] > SPACE
  {
    ItemsStart(items[1..], format, indent);
  }

  lemma SkipToItem(c: seq<byte>, p: nat, format: bool, next: nat)
    requires At(c, p, Layout(format, SPACE)) && next == p + |Layout(format, SPACE)|
    requires next < |c| && c[next] > SPACE
    ensures Skip(c, p) == next
  {
    hide At, Skip;
    SkipOver(c, p, Layout(format, SPACE));
  }

  /** A text, a comma with the layout behind it, and the rest. */
  lemma ThreeParts(c: seq<byte>, p: nat, first: seq<byte>, format: bool, rest: seq<byte>, q: nat)
    requires At(c, p, first + ([COMMA] + Layout(format, SPACE)) + rest)
    requires q == p + |first| && rest != [] && rest[0] > SPACE
    ensures At(c, p, first) && q < |c| && c[q] == COMMA
    ensures var next := Skip(c, q + 1);
            At(c, next, rest) && next + |rest| == p + |first + ([COMMA] + Layout(format, SPACE)) + rest|
  {
    hide At, Skip, Layout;
    var separator := [COMMA] + Layout(format, SPACE);
    var next := q + |separator|;
    AtParts(c, p, first + separator, rest);
    assert p + |first + separator| == next;
    AtParts(c, p, first, separator);
    AtParts(c, q, [COMMA], Layout(format, SPACE));
    AtIndex(c, q, [COMMA], 0);
    AtIndex(c, next, rest, 0);
    SkipToItem(c, q + 1, format, next);
  }

  /** Where the pieces of a list of two or more printed elements stand. */
  lemma ItemsParts(c: seq<byte>, p: nat, items: seq<Json>, format: bool, indent: nat, q: nat)
    requires |items| > 1 && PrintableItems(items)
    requires q == p + |Unparse(items[0], format, indent)|
    requires At(c, p, UnparseItems(items, format, indent))
    ensures At(c, p, Unparse(items[0], format, indent))
    ensures q < |c| && c[q] == COMMA
    ensures var next := Skip(c, q + 1);
            At(c, next, UnparseItems(items[1..], format, indent))
            && next + |UnparseItems(items[1..], format, indent)| == p + |UnparseItems(items, format, indent)|
  {
    hide At, Skip, Unparse, UnparseItems, Layout;
    UnparseTwoOrMore(items, format, indent);
    ThreeParts(c, p, Unparse(items[0], format, indent), format, UnparseItems(items[1..], format, indent), q);
  }

  lemma {:induction false} ParseUnparsedItems(
      c: seq<byte>, p: nat, items: seq<Json>, format: bool, indent: nat, depth: nat, end: nat)
    requires items != [] && PrintableItems(items)
    requires depth <= NESTING_LIMIT && ItemsFit(items, NESTING_LIMIT - depth)
    requires At(c, p, UnparseItems(items, format, indent))
    requires end == p + |UnparseItems(items, format, indent)| < |c| && c[end] == RBRACKET
    ensures ParseItems(c, p, depth) == Items(items, end + 1)
    decreases items, 2
  {
    hide At, ParseValue, ParseItems, Unparse, UnparseItems, Skip, Layout;
    var q := p + |Unparse(items[0], format, indent)|;
    if |items| == 1 {
      UnparseOne(items, format, indent);
      ParseUnparse(c, p, items[0], format, indent, depth, end);
      ParseItemsLast(c, p, items, end, depth);
    } else {
      ItemsParts(c, p, items, format, indent, q);
      ParseUnparse(c, p, items[0], format, indent, depth, q);
      ParseUnparsedItems(c, Skip(c, q + 1), items[1..], format, indent, depth, end);
      ParseItemsMore(c, p, items, q, depth, end + 1);
    }
  }

  // ---- objects

  /** Opening brace, members, closing brace; end is where the closing line starts. */
  lemma ObjectParts(c: seq<byte>, p: nat, members: seq<Member>, format: bool, indent: nat, q: nat, end: nat)
    requires Printable(Object(members))
    requires At(c, p, Unparse(Object(members), format, indent))
    requires q == p + 1 + |Layout(format, LINE_FEED)|
    requires end == q + |UnparseMembers(members, format, indent + 1)|
    ensures At(c, p + 1, Layout(format, LINE_FEED))
    ensures At(c, q, UnparseMembers(members, format, indent + 1))
    ensures At(c, end, Indent(format, indent) + [RBRACE])
    ensures end + |Indent(format, indent)| + 1 == p + |Unparse(Object(members), format, indent)|
  {
    hide At, UnparseMembers, Layout, Indent;
    var line := Layout(format, LINE_FEED);
    var body := UnparseMembers(members, format, indent + 1);
    var close := Indent(format, indent) + [RBRACE];
    AtParts(c, p, [LBRACE] + line + body, close);
    AtParts(c, p, [LBRACE] + line, body);
    AtParts(c, p, [LBRACE], line);
    assert p + |[LBRACE] + line + body| == end && p + |[LBRACE] + line| == q;
  }

  /** A line break if formatted, the indentation, then the closing brace. */
  lemma SkipToBrace(c: seq<byte>, p: nat, format: bool, indent: nat, end: nat, brace: nat)
    requires At(c, p, Layout(format, LINE_FEED)) && end == p + |Layout(format, LINE_FEED)|
    requires At(c, end, Indent(format, indent) + [RBRACE]) && brace == end + |Indent(format, indent)|
    ensures brace < |c| && Skip(c, p) == brace && c[brace] == RBRACE
  {
    hide At, Skip;
    var line := Layout(format, LINE_FEED);
    var tabs := Indent(format, indent);
    AtParts(c, end, tabs, [RBRACE]);
    AtIndex(c, brace, [RBRACE], 0);
    AtJoin(c, p, line, tabs);
    SkipOver(c, p, line + tabs);
  }

  /** A line break if formatted, the indentation, then the quote that opens the next key. */
  lemma SkipToKey(c: seq<byte>, p: nat, format: bool, indent: nat, next: nat, key: nat)
    requires At(c, p, Layout(format, LINE_FEED)) && next == p + |Layout(format, LINE_FEED)|
    requires At(c, next, Indent(format, indent)) && key == next + |Indent(format, indent)|
    requires key < |c| && c[key] == QUOTE
    ensures Skip(c, p) == key
  {
    hide At, Skip;
    var line := Layout(format, LINE_FEED);
    var tabs := Indent(format, indent);
    AtJoin(c, p, line, tabs);
    SkipOver(c, p, line + tabs);
  }

  lemma {:induction false} ParseUnparsedObject(
      c: seq<byte>, p: nat, members: seq<Member>, format: bool, indent: nat, depth: nat)
    requires Printable(Object(members)) && depth <= NESTING_LIMIT && Fits(Object(members), NESTING_LIMIT - depth)
    requires At(c, p, Unparse(Object(members), format, indent))
    ensures p < |c|
    ensures ParseObject(c, p, depth) == Parsed(Object(members), p + |Unparse(Object(members), format, indent)|)
    decreases members, 3
  {
    hide At, ParseValue, ParseMembers, Skip, Unparse, Layout, Indent;
    var q := p + 1 + |Layout(format, LINE_FEED)|;
    var end := q + |UnparseMembers(members, format, indent + 1)|;
    ObjectParts(c, p, members, format, indent, q, end);
    if members == [] {
      SkipToBrace(c, p + 1, format, indent, end, end + |Indent(format, indent)|);
    } else {
      var key := q + |Indent(format, indent + 1)|;
      MembersStart(c, q, members, format, indent + 1, key);
      SkipToKey(c, p + 1, format, indent + 1, q, key);
      ParseUnparsedMembers(c, q, members, format, indent + 1, depth + 1, key, end, end + |Indent(format, indent)|);
    }
  }

  /** Where the pieces of a printed member stand: indentation, key, colon, value. */
  lemma MemberParts(c: seq<byte>, p: nat, m: Member, format: bool, indent: nat, key: nat, colon: nat, v: nat)
    requires NulFree(m.key) && Printable(m.value)
    requires At(c, p, UnparseMember(m, format, indent))
    requires key == p + |Indent(format, indent)|
    requires colon == key + |Quoted(m.key)|
    requires v == colon + 1 + |Layout(format, TAB)|
    ensures At(c, p, Indent(format, indent)) && At(c, key, Quoted(m.key)) && At(c, colon, [COLON])
    ensures At(c, colon + 1, Layout(format, TAB)) && At(c, v, Unparse(m.value, format, indent))
    ensures v + |Unparse(m.value, format, indent)| == p + |UnparseMember(m, format, indent)|
  {
    hide At, Quoted, Unparse, Indent, Layout;
    var start := Indent(format, indent);
    var quoted := Quoted(m.key);
    var separator := [COLON] + Layout(format, TAB);
    AtParts(c, p, start + quoted + separator, Unparse(m.value, format, indent));
    assert p + |start + quoted + separator| == v;
    AtParts(c, p, start + quoted, separator);
    assert p + |start + quoted| == colon;
    AtParts(c, p, start, quoted);
    AtParts(c, colon, [COLON], Layout(format, TAB));
  }

  /** A printed member starts with its indentation, then the opening quote of its key. */
  lemma MembersStart(c: seq<byte>, p: nat, members: seq<Member>, format: bool, indent: nat, key: nat)
    requires members != [] && PrintableMembers(members)
    requires At(c, p, UnparseMembers(members, format, indent))
    requires key == p + |Indent(format, indent)|
    ensures At(c, p, UnparseMember(members[0], format, indent))
    ensures At(c, p, Indent(format, indent))
    ensures key < |c| && c[key] == QUOTE
  {
    hide At, Unparse, UnparseMember, Indent, Layout;
    var m := members[0];
    var head := UnparseMember(m, format, indent);
    if |members| == 1 {
      AtParts(c, p, head, Layout(format, LINE_FEED));
    } else {
      AtParts(c, p, head + ([COMMA] + Layout(format, LINE_FEED)), UnparseMembers(members[1..], format, indent));
      AtParts(c, p, head, [COMMA] + Layout(format, LINE_FEED));
    }
    var colon := key + |Quoted(m.key)|;
    MemberParts(c, p, m, format, indent, key, colon, colon + 1 + |Layout(format, TAB)|);
    AtIndex(c, key, Quoted(m.key), 0);
  }

  /** The key, the colon and the value of the member that starts at k; q is where the value ends. */
  predicate MemberAt(c: seq<byte>, k: nat, m: Member, depth: nat, q: nat) {
    k < |c| && ParseMember(c, k, depth) == OneMember(m, q)
  }

  /** A brace after a member ends the list. */
  lemma ParseMembersLast(c: seq<byte>, k: nat, members: seq<Member>, q: nat, depth: nat, brace: nat)
    requires |members| == 1 && MemberAt(c, k, members[0], depth, q)
    requires Skip(c, q) == brace < |c| && c[brace] == RBRACE
    ensures ParseMembers(c, k, depth) == Members(members, brace + 1)
  {
    HeadAndTail(members);
    hide ParseMember, Skip;
  }

  /** A comma after a member leads to the rest of the list. */
  lemma ParseMembersMore(c: seq<byte>, k: nat, members: seq<Member>, q: nat, depth: nat, next: nat, end: nat)
    requires members != [] && MemberAt(c, k, members[0], depth, q)
    requires q < |c| && c[q] == COMMA && Skip(c, q + 1) == next <= |c|
    requires ParseMembers(c, next, depth) == Members(members[1..], end)
    ensures ParseMembers(c, k, depth) == Members(members, end)
  {
    SkipNothing(c, q);
    HeadAndTail(members);
    hide ParseMember, Skip;
  }

  /** Key, colon and value of one printed member, which ends at q. */
  lemma {:induction false} ParseUnparsedMember(
      c: seq<byte>, p: nat, m: Member, format: bool, indent: nat, depth: nat, key: nat, q: nat)
    requires NulFree(m.key) && Printable(m.value)
    requires depth <= NESTING_LIMIT && Fits(m.value, NESTING_LIMIT - depth)
    requires At(c, p, UnparseMember(m, format, indent))
    requires key == p + |Indent(format, indent)|
    requires q == p + |UnparseMember(m, format, indent)| < |c| && !IsNumberByte(c[q])
    ensures MemberAt(c, key, m, depth, q)
    decreases m, 2
  {
    hide At, ParseValue, ParseString, Quoted, Unparse, UnparseMember, Skip, Fits, Printable, Indent;
    var colon := key + |Quoted(m.key)|;
    var value := Unparse(m.value, format, indent);
    var v := colon + 1 + |Layout(format, TAB)|;
    MemberParts(c, p, m, format, indent, key, colon, v);
    ParseQuoted(c, key, m.key);
    AtIndex(c, colon, [COLON], 0);
    SkipNothing(c, colon);
    FirstByte(m.value, format, indent);
    AtIndex(c, v, value, 0);
    SkipOver(c, colon + 1, Layout(format, TAB));
    ParseUnparse(c, v, m.value, format, indent, depth, q);
  }

  lemma FirstAndRest(members: seq<Member>, room: nat)
    requires members != [] && PrintableMembers(members) && MembersFit(members, room)
    ensures NulFree(members[0].key) && Printable(members[0].value) && Fits(members[0].value, room)
    ensures PrintableMembers(members[1..]) && MembersFit(members[1..], room)
  {
  }

  /** What follows the only member left. */
  lemma LastMemberParts(c: seq<byte>, p: nat, members: seq<Member>, format: bool, indent: nat, q: nat, end: nat)
    requires |members| == 1 && indent > 0 && PrintableMembers(members)
    requires At(c, p, UnparseMembers(members, format, indent))
    requires q == p + |UnparseMember(members[0], format, indent)|
    requires end == p + |UnparseMembers(members, format, indent)|
    requires At(c, end, Indent(format, indent - 1) + [RBRACE])
    ensures end == q + |Layout(format, LINE_FEED)| && At(c, q, Layout(format, LINE_FEED))
    ensures q < |c| && !IsNumberByte(c[q])
  {
    hide At, UnparseMember;
    AtParts(c, p, UnparseMember(members[0], format, indent), Layout(format, LINE_FEED));
    if format {
      AtIndex(c, q, Layout(format, LINE_FEED), 0);
    } else {
      AtIndex(c, end, Indent(format, indent - 1) + [RBRACE], 0);
    }
  }

  /** What follows the first of two or more members: a comma, then the rest. */
  lemma UnparseMore(members: seq<Member>, format: bool, indent: nat)
    requires |members| > 1 && PrintableMembers(members)
    ensures UnparseMembers(members, format, indent)
         == UnparseMember(members[0], format, indent) + ([COMMA] + Layout(format, LINE_FEED))
            + UnparseMembers(members[1..], format, indent)
  {
  }

  lemma MoreMembersParts(
      c: seq<byte>, p: nat, members: seq<Member>, format: bool, indent: nat, q: nat, next: nat, end: nat)
    requires |members| > 1 && PrintableMembers(members)
    requires At(c, p, UnparseMembers(members, format, indent))
    requires q == p + |UnparseMember(members[0], format, indent)|
    requires next == q + 1 + |Layout(format, LINE_FEED)|
    requires end == p + |UnparseMembers(members, format, indent)|
    ensures q < |c| && c[q] == COMMA && !IsNumberByte(c[q]) && At(c, q + 1, Layout(format, LINE_FEED))
    ensures At(c, next, UnparseMembers(members[1..], format, indent))
    ensures end == next + |UnparseMembers(members[1..], format, indent)|
  {
    hide At, Unparse, UnparseMember, UnparseMembers, Layout;
    var head := UnparseMember(members[0], format, indent);
    var separator := [COMMA] + Layout(format, LINE_FEED);
    var rest := UnparseMembers(members[1..], format, indent);
    UnparseMore(members, format, indent);
    AtParts(c, p, head + separator, rest);
    assert p + |head + separator| == next;
    AtParts(c, p, head, separator);
    AtParts(c, q, [COMMA], Layout(format, LINE_FEED));
    AtIndex(c, q, [COMMA], 0);
  }

  lemma {:induction false} ParseUnparsedMembers(
      c: seq<byte>, p: nat, members: seq<Member>, format: bool, indent: nat, depth: nat, key: nat, end: nat, brace: nat)
    requires members != [] && indent > 0 && PrintableMembers(members)
    requires depth <= NESTING_LIMIT && MembersFit(members, NESTING_LIMIT - depth)
    requires At(c, p, UnparseMembers(members, format, indent))
    requires key == p + |Indent(format, indent)| <= |c|
    requires end == p + |UnparseMembers(members, format, indent)|
    requires At(c, end, Indent(format, indent - 1) + [RBRACE]) && brace == end + |Indent(format, indent - 1)|
    ensures ParseMembers(c, key, depth) == Members(members, brace + 1)
    decreases members, 2
  {
    if |members| == 1 {
      ParseUnparsedLastMember(c, p, members, format, indent, depth, key, end, brace);
    } else {
      ParseUnparsedMoreMembers(c, p, members, format, indent, depth, key, end, brace);
    }
  }

  lemma {:induction false} ParseUnparsedLastMember(
      c: seq<byte>, p: nat, members: seq<Member>, format: bool, indent: nat, depth: nat, key: nat, end: nat, brace: nat)
    requires |members| == 1 && indent > 0 && PrintableMembers(members)
    requires depth <= NESTING_LIMIT && MembersFit(members, NESTING_LIMIT - depth)
    requires At(c, p, UnparseMembers(members, format, indent))
    requires key == p + |Indent(format, indent)| <= |c|
    requires end == p + |UnparseMembers(members, format, indent)|
    requires At(c, end, Indent(format, indent - 1) + [RBRACE]) && brace == end + |Indent(format, indent - 1)|
    ensures ParseMembers(c, key, depth) == Members(members, brace + 1)
    decreases members, 0
  {
    hide *;
    var m := members[0];
    FirstAndRest(members, NESTING_LIMIT - depth);
    var q := p + |UnparseMember(m, format, indent)|;
    MembersStart(c, p, members, format, indent, key);
    LastMemberParts(c, p, members, format, indent, q, end);
    ParseUnparsedMember(c, p, m, format, indent, depth, key, q);
    SkipToBrace(c, q, format, indent - 1, end, brace);
    ParseMembersLast(c, key, members, q, depth, brace);
  }

  lemma {:induction false} ParseUnparsedMoreMembers(
      c: seq<byte>, p: nat, members: seq<Member>, format: bool, indent: nat, depth: nat, key: nat, end: nat, brace: nat)
    requires |members| > 1 && indent > 0 && PrintableMembers(members)
    requires depth <= NESTING_LIMIT && MembersFit(members, NESTING_LIMIT - depth)
    requires At(c, p, UnparseMembers(members, format, indent))
    requires key == p + |Indent(format, indent)| <= |c|
    requires end == p + |UnparseMembers(members, format, indent)|
    requires At(c, end, Indent(format, indent - 1) + [RBRACE]) && brace == end + |Indent(format, indent - 1)|
    ensures ParseMembers(c, key, depth) == Members(members, brace + 1)
    decreases members, 1
  {
    hide *;
    var m, rest := members[0], members[1..];
    FirstAndRest(members, NESTING_LIMIT - depth);
    var q := p + |UnparseMember(m, format, indent)|;
    var next := q + 1 + |Layout(format, LINE_FEED)|;
    var nextKey := next + |Indent(format, indent)|;
    MembersStart(c, p, members, format, indent, key);
    MoreMembersParts(c, p, members, format, indent, q, next, end);
    ParseUnparsedMember(c, p, m, format, indent, depth, key, q);
    MembersStart(c, next, rest, format, indent, nextKey);
    SkipToKey(c, q + 1, format, indent, next, nextKey);
    ParseUnparsedMembers(c, next, rest, format, indent, depth, nextKey, end, brace);
    ParseMembersMore(c, key, members, q, depth, nextKey, brace + 1);
  }

  /** cJSON_Parse on what cJSON_Print or cJSON_PrintUnformatted returns, with its terminating NUL. */
  lemma {:induction false} RoundTrip(v: Json, format: bool)
    requires Printable(v) && Fits(v, NESTING_LIMIT)
    ensures Parse(Unparse(v, format, 0) + [NUL]) == Parsed(v, |Unparse(v, format, 0)|)
  {
    var t := Unparse(v, format, 0);
    var c := t + [NUL];
    FirstByte(v, format, 0);
    assert c[0] == t[0];
    assert At(c, 0, t);
    SkipNothing(c, 0);
    ParseUnparse(c, 0, v, format, 0, 0, |t|);
  }
}
