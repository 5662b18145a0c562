/** String literals: the size estimate of the first pass, and the code points escapes stand for. */
module JsonEscape {
  import opened JsonText
  import opened JsonValue
  import opened JsonParse

  // ---- the size estimate

  /**
   * Where the second pass stands in terms of the first: at one of its boundaries, or (hidden) on a
   * byte the first pass skipped as escaped. `escapes` of them are still ahead before the closing quote.
   */
  predicate InStep(c: seq<byte>, q: nat, hidden: bool, end: nat, escapes: nat) {
    var boundary := if hidden then q + 1 else q;
    boundary <= |c| && Scan(c, boundary) == Closed(end, escapes)
  }

  /** The first pass over the next n bytes meets at most every other byte as an escape. */
  lemma {:induction false} ScanAhead(c: seq<byte>, q: nat, n: nat, end: nat, escapes: nat)
    returns (hidden: bool, left: nat)
    requires InStep(c, q, false, end, escapes) && q + n <= end
    ensures InStep(c, q + n, hidden, end, left) && left <= escapes
    ensures hidden ==> q + n < end
    ensures 2 * (escapes - left) <= n + 1
    decreases n
  {
    if n == 0 {
      hidden, left := false, escapes;
    } else if c[q] != BACKSLASH {
      hidden, left := ScanAhead(c, q + 1, n - 1, end, escapes);
    } else if n == 1 {
      hidden, left := true, escapes - 1;
    } else {
      hidden, left := ScanAhead(c, q + 2, n - 2, end, escapes - 1);
    }
  }

  lemma HexIsOrdinary(h: seq<byte>, i: nat)
    requires |h| == 4 && IsHex4(h) && i < 4
    ensures h[i] != BACKSLASH && h[i] != QUOTE
  {
    assert HexDigit(h[i]) >= 0;
  }

  /** Hexadecimal digits are no backslashes, so they keep the passes in step. */
  lemma HexStaysInStep(c: seq<byte>, q: nat, end: nat, escapes: nat)
    requires InStep(c, q, false, end, escapes) && q + 4 <= end && IsHex4(c[q..q + 4])
    ensures InStep(c, q + 4, false, end, escapes)
  {
    hide IsHex4;
    var h := c[q..q + 4];
    assert h[0] == c[q] && h[1] == c[q + 1] && h[2] == c[q + 2] && h[3] == c[q + 3];
    HexIsOrdinary(h, 0);
    HexIsOrdinary(h, 1);
    HexIsOrdinary(h, 2);
    HexIsOrdinary(h, 3);
    CopyStep(c, q, false, end, escapes);
    CopyStep(c, q + 1, false, end, escapes);
    CopyStep(c, q + 2, false, end, escapes);
    CopyStep(c, q + 3, false, end, escapes);
  }

  /** A byte copied as it is. */
  lemma CopyStep(c: seq<byte>, q: nat, hidden: bool, end: nat, escapes: nat)
    requires InStep(c, q, hidden, end, escapes) && q < end < |c| && c[q] != BACKSLASH
    ensures InStep(c, q + 1, false, end, escapes)
  {
  }

  /** An escape: the bytes it emits and the first-pass escapes it runs over fit the bytes it takes. */
  lemma EscapeStep(c: seq<byte>, q: nat, hidden: bool, end: nat, escapes: nat)
    returns (hidden': bool, left: nat)
    requires InStep(c, q, hidden, end, escapes) && q < end < |c| && c[q] == BACKSLASH
    requires hidden ==> q + 1 <= end
    requires EscapeAt(c, q, end).Escape?
    ensures left <= escapes
    ensures var e := EscapeAt(c, q, end);
            q + e.length <= end ==>
              InStep(c, q + e.length, hidden', end, left)
              && (hidden' ==> q + e.length < end)
              && |e.bytes| + (escapes - left) <= e.length
    ensures q + EscapeAt(c, q, end).length > end ==>
              left == 0 && q + 1 == end && |EscapeAt(c, q, end).bytes| + escapes <= 1
  {
    var e := EscapeAt(c, q, end);
    if c[q + 1] == LOWER_U {
      hidden', left := UnicodeStep(c, q, hidden, end, escapes);
    } else if !hidden {
      hidden', left := false, escapes - 1;
    } else if q + 1 == end {
      hidden', left := false, 0;
    } else {
      hidden', left := ScanAhead(c, q + 1, 1, end, escapes);
    }
  }

  lemma UnicodeStep(c: seq<byte>, q: nat, hidden: bool, end: nat, escapes: nat)
    returns (hidden': bool, left: nat)
    requires InStep(c, q, hidden, end, escapes) && q < end < |c| && c[q] == BACKSLASH && c[q + 1] == LOWER_U
    requires Utf16Escape(c, q, end).Escape?
    ensures left <= escapes
    ensures var e := Utf16Escape(c, q, end);
            InStep(c, q + e.length, hidden', end, left)
            && (hidden' ==> q + e.length < end)
            && |e.bytes| + (escapes - left) <= e.length
  {
    hide InStep, Utf16Escape, IsHex4;
    var left2 := BehindBackslash(c, q, hidden, end, escapes);
    if Utf16Escape(c, q, end).length == 12 {
      PairOfUnits(c, q, end);
      HexStaysInStep(c, q + 2, end, left2);
      left := BehindBackslash(c, q + 6, false, end, left2);
      HexStaysInStep(c, q + 8, end, left);
      hidden' := false;
    } else {
      OneUnit(c, q, end);
      if IsHex4(c[q + 2..q + 6]) {
        HexStaysInStep(c, q + 2, end, left2);
        hidden', left := false, left2;
      } else {
        hidden', left := ScanAhead(c, q + 2, 4, end, left2);
      }
    }
  }

  /** Behind a backslash and the byte it escapes; a hidden backslash counts no more. */
  lemma BehindBackslash(c: seq<byte>, q: nat, hidden: bool, end: nat, escapes: nat) returns (left: nat)
    requires InStep(c, q, hidden, end, escapes) && q + 1 < end < |c| && c[q] == BACKSLASH
    requires hidden ==> c[q + 1] != BACKSLASH && c[q + 1] != QUOTE
    ensures InStep(c, q + 2, false, end, left) && left == if hidden then escapes else escapes - 1
  {
    left := if hidden then escapes else escapes - 1;
  }

  lemma PairOfUnits(c: seq<byte>, q: nat, end: nat)
    requires q <= end < |c| && Utf16Escape(c, q, end).Escape? && Utf16Escape(c, q, end).length == 12
    ensures q + 12 <= end && IsHex4(c[q + 2..q + 6]) && IsHex4(c[q + 8..q + 12])
    ensures c[q + 6] == BACKSLASH && c[q + 7] == LOWER_U && |Utf16Escape(c, q, end).bytes| == 4
  {
    hide IsHex4;
  }

  lemma OneUnit(c: seq<byte>, q: nat, end: nat)
    requires q <= end < |c| && Utf16Escape(c, q, end).Escape? && Utf16Escape(c, q, end).length == 6
    ensures q + 6 <= end && |Utf16Escape(c, q, end).bytes| <= 3
    ensures !IsHex4(c[q + 2..q + 6]) ==> |Utf16Escape(c, q, end).bytes| == 1
  {
    hide IsHex4;
  }

  lemma NothingAhead(c: seq<byte>, end: nat, hidden: bool, escapes: nat)
    requires InStep(c, end, hidden, end, escapes) && end < |c|
    ensures !hidden && escapes == 0
  {
  }

  /** Whatever the escapes are, the bytes emitted never exceed the raw length less the escapes counted. */
  lemma {:induction false} SizeEstimate(c: seq<byte>, q: nat, hidden: bool, end: nat, escapes: nat)
    requires InStep(c, q, hidden, end, escapes) && q <= end < |c| && (hidden ==> q < end)
    requires Unescape(c, q, end).Unescaped?
    ensures |Unescape(c, q, end).bytes| + escapes <= end - q
    decreases end - q
  {
    hide InStep, EscapeAt;
    if q == end {
      NothingAhead(c, end, hidden, escapes);
    } else if c[q] != BACKSLASH {
      CopyStep(c, q, hidden, end, escapes);
      SizeEstimate(c, q + 1, false, end, escapes);
    } else {
      var hidden', left := EscapeStep(c, q, hidden, end, escapes);
      var e := EscapeAt(c, q, end);
      if q + e.length <= end {
        SizeEstimate(c, q + e.length, hidden', end, left);
      }
    }
  }

  // ---- code points

  predicate IsHighSurrogate(unit: nat) {
    0xD800 <= unit <= 0xDBFF
  }

  predicate IsLowSurrogate(unit: nat) {
    0xDC00 <= unit <= 0xDFFF
  }

  predicate IsScalar(code: nat) {
    code <= 0x10_FFFF && !IsHighSurrogate(code) && !IsLowSurrogate(code)
  }

  predicate IsTail(b: byte) {
    0x80 <= b <= 0xBF
  }

  /** The octet sequences of section 4 of RFC 3629, which leave no overlong form and no surrogate. */
  predicate WellFormedUtf8(u: seq<byte>) {
    match |u|
    case 1 => u[0] <= 0x7F
    case 2 => 0xC2 <= u[0] <= 0xDF && IsTail(u[1])
    case 3 =>
      IsTail(u[1]) && IsTail(u[2])
      && ((u[0] == 0xE0 && u[1] >= 0xA0) || 0xE1 <= u[0] <= 0xEC
          || (u[0] == 0xED && u[1] <= 0x9F) || 0xEE <= u[0] <= 0xEF)
    case 4 =>
      IsTail(u[1]) && IsTail(u[2]) && IsTail(u[3])
      && ((u[0] == 0xF0 && u[1] >= 0x90) || 0xF1 <= u[0] <= 0xF3 || (u[0] == 0xF4 && u[1] <= 0x8F))
    case _ => false
  }

  /** The character number of section 3 of RFC 3629: lead bits, then six bits from each tail octet. */
  function CodePoint(u: seq<byte>): int
    requires WellFormedUtf8(u)
  {
    match |u|
    case 1 => u[0] as int
    case 2 => (u[0] as int - 0xC0) * 0x40 + Bits(u[1])
    case 3 => ((u[0] as int - 0xE0) * 0x40 + Bits(u[1])) * 0x40 + Bits(u[2])
    case _ => (((u[0] as int - 0xF0) * 0x40 + Bits(u[1])) * 0x40 + Bits(u[2])) * 0x40 + Bits(u[3])
  }

  function Bits(tail: byte): int
    requires IsTail(tail)
  {
    tail as int - 0x80
  }

  /** The bytes are well-formed UTF-8 for the character. */
  predicate Encodes(u: seq<byte>, code: int) {
    WellFormedUtf8(u) && CodePoint(u) == code
  }

  lemma ThreeOctetsDecode(code: nat)
    requires IsScalar(code) && 0x800 <= code < 0x1_0000
    ensures WellFormedUtf8(Utf8(code)) && CodePoint(Utf8(code)) == code
  {
    var low := code / 0x40;
    assert code == low * 0x40 + code % 0x40;
    assert low == code / 0x1000 * 0x40 + low % 0x40;
  }

  lemma FourOctetsDecode(code: nat)
    requires IsScalar(code) && 0x1_0000 <= code
    ensures WellFormedUtf8(Utf8(code)) && CodePoint(Utf8(code)) == code
  {
    var low, mid := code / 0x40, code / 0x1000;
    assert code == low * 0x40 + code % 0x40;
    assert low == mid * 0x40 + low % 0x40;
    assert mid == code / 0x4_0000 * 0x40 + mid % 0x40;
  }

  /** Encoding is correct, and there is no other well-formed encoding. */
  lemma Utf8Decodes(code: nat)
    requires IsScalar(code)
    ensures WellFormedUtf8(Utf8(code)) && CodePoint(Utf8(code)) == code && Encodes(Utf8(code), code)
  {
    if 0x1_0000 <= code {
      FourOctetsDecode(code);
    } else if 0x800 <= code {
      ThreeOctetsDecode(code);
    }
  }

  lemma SixBits(a: nat, b: nat, c: nat)
    requires b < 0x40 && c < 0x40
    ensures var n := (a * 0x40 + b) * 0x40 + c;
            n / 0x40 == a * 0x40 + b && n % 0x40 == c && n / 0x1000 == a && (n / 0x40) % 0x40 == b
  {
  }

  lemma ThreeOctets(u: seq<byte>)
    requires WellFormedUtf8(u) && |u| == 3
    ensures IsScalar(CodePoint(u)) && u == Utf8(CodePoint(u))
  {
    SixBits(u[0] as int - 0xE0, Bits(u[1]), Bits(u[2]));
  }

  lemma FourOctets(u: seq<byte>)
    requires WellFormedUtf8(u) && |u| == 4
    ensures IsScalar(CodePoint(u)) && u == Utf8(CodePoint(u))
  {
    var code, high := CodePoint(u), (u[0] as int - 0xF0) * 0x40 + Bits(u[1]);
    SixBits(high, Bits(u[2]), Bits(u[3]));
    SixBits(u[0] as int - 0xF0, Bits(u[1]), Bits(u[2]));
    assert code / 0x1000 == high && code / 0x4_0000 == u[0] as int - 0xF0;
  }

  lemma Utf8IsUnique(u: seq<byte>)
    requires WellFormedUtf8(u)
    ensures IsScalar(CodePoint(u)) && u == Utf8(CodePoint(u))
  {
    if |u| == 3 {
      ThreeOctets(u);
    } else if |u| == 4 {
      FourOctets(u);
    }
  }

  /** The bit operations of the encoder are the arithmetic of `Continuation` and `Utf8`. */
  lemma EncoderBits(code: bv32)
    ensures (code | 0x80) & 0xBF == 0x80 + code % 0x40
    ensures code >> 6 == code / 0x40
    ensures code < 0x20 ==> (code | 0xC0) & 0xFF == 0xC0 + code
    ensures code < 0x10 ==> (code | 0xE0) & 0xFF == 0xE0 + code
    ensures code < 0x08 ==> (code | 0xF0) & 0xFF == 0xF0 + code
  {
  }

  // ---- four hexadecimal digits

  const CAPITALS: string := "0123456789ABCDEF"
  const SMALL_LETTERS: string := "0123456789abcdef"

  /** The byte is the d-th digit of one of the alphabets. */
  predicate SpellsDigit(b: byte, d: nat)
    requires d < 16
  {
    b as int == CAPITALS[d] as int || b as int == SMALL_LETTERS[d] as int
  }

  /** Four bytes that spell a number below 0x10000, most significant digit first, in letters of any case. */
  predicate Spells(h: seq<byte>, n: nat) {
    |h| == 4 && n < 0x1_0000
    && SpellsDigit(h[0], n / 0x1000) && SpellsDigit(h[1], n / 0x100 % 0x10)
    && SpellsDigit(h[2], n / 0x10 % 0x10) && SpellsDigit(h[3], n % 0x10)
  }

  lemma DigitIsSpelled(b: byte, d: nat)
    requires d < 16
    ensures SpellsDigit(b, d) <==> HexDigit(b) == d
  {
    if d < 4 {
      assert d == 0 || d == 1 || d == 2 || d == 3;
    } else if d < 8 {
      assert d == 4 || d == 5 || d == 6 || d == 7;
    } else if d < 12 {
      assert d == 8 || d == 9 || d == 10 || d == 11;
    } else {
      assert d == 12 || d == 13 || d == 14 || d == 15;
    }
  }

  lemma FourDigits(n: nat, a: nat, b: nat, c: nat, d: nat)
    requires a < 16 && b < 16 && c < 16 && d < 16 && n == 0x1000 * a + 0x100 * b + 0x10 * c + d
    ensures n / 0x1000 == a && n / 0x100 % 0x10 == b && n / 0x10 % 0x10 == c && n % 0x10 == d && n < 0x1_0000
  {
    assert n / 0x100 == 0x10 * a + b && n / 0x10 == 0x100 * a + 0x10 * b + c;
  }

  lemma DigitsOf(n: nat)
    requires n < 0x1_0000
    ensures n == 0x1000 * (n / 0x1000) + 0x100 * (n / 0x100 % 0x10) + 0x10 * (n / 0x10 % 0x10) + n % 0x10
    ensures n / 0x1000 < 16
  {
    assert n / 0x10 / 0x10 == n / 0x100 && n / 0x100 / 0x10 == n / 0x1000;
  }

  /** Four digits are read as the number they spell. */
  lemma SpelledIsRead(h: seq<byte>, n: nat)
    requires Spells(h, n)
    ensures IsHex4(h) && Hex4(h) == n
  {
    hide HexDigit, SpellsDigit;
    DigitsOf(n);
    DigitIsSpelled(h[0], n / 0x1000);
    DigitIsSpelled(h[1], n / 0x100 % 0x10);
    DigitIsSpelled(h[2], n / 0x10 % 0x10);
    DigitIsSpelled(h[3], n % 0x10);
  }

  /** And nothing else is four digits. */
  lemma ReadIsSpelled(h: seq<byte>)
    requires |h| == 4 && IsHex4(h)
    ensures Spells(h, Hex4(h))
  {
    hide HexDigit, SpellsDigit;
    var a, b, c, d := HexDigit(h[0]), HexDigit(h[1]), HexDigit(h[2]), HexDigit(h[3]);
    FourDigits(Hex4(h), a, b, c, d);
    DigitIsSpelled(h[0], a);
    DigitIsSpelled(h[1], b);
    DigitIsSpelled(h[2], c);
    DigitIsSpelled(h[3], d);
  }

  /** The number that four bytes spell, or 0 if they spell none. */
  ghost predicate ReadAs(h: seq<byte>, code: nat) {
    (forall n :: Spells(h, n) ==> code == n) && ((forall n :: !Spells(h, n)) ==> code == 0)
  }

  /** A \uXXXX that spells the code unit stands at p. */
  predicate UnitAt(c: seq<byte>, p: nat, end: nat, unit: nat) {
    p + 6 <= end < |c| && c[p] as int == '\\' as int && c[p + 1] as int == 'u' as int && Spells(c[p + 2..p + 6], unit)
  }

  /** And behind it one that spells a low surrogate. */
  ghost predicate PairedAt(c: seq<byte>, p: nat, end: nat, low: nat) {
    UnitAt(c, p + 6, end, low) && IsLowSurrogate(low)
  }

  /**
   * The character escapes of section 7 of RFC 8259: a code unit that is no surrogate stands for itself,
   * a surrogate pair for its character, and the output is the UTF-8 encoding of exactly that character;
   * every other surrogate is rejected.
   */
  lemma UnicodeEscape(c: seq<byte>, p: nat, end: nat, unit: nat)
    requires UnitAt(c, p, end, unit)
    ensures var e := EscapeAt(c, p, end);
            (e.Escape? <==>
               !IsLowSurrogate(unit) && (IsHighSurrogate(unit) ==> exists low: nat :: PairedAt(c, p, end, low)))
            && (e.Escape? && !IsHighSurrogate(unit) ==> e.length == 6 && Encodes(e.bytes, unit))
            && (e.Escape? && IsHighSurrogate(unit) ==>
                  e.length == 12
                  && forall low: nat :: PairedAt(c, p, end, low) ==>
                       Encodes(e.bytes, 0x1_0000 + (unit - 0xD800) * 0x400 + (low - 0xDC00)))
  {
    hide Encodes, WellFormedUtf8, CodePoint, Utf8, IsHex4, Hex4, Spells;
    SpelledIsRead(c[p + 2..p + 6], unit);
    if IsHighSurrogate(unit) {
      SecondUnit(c, p, end);
      assert unit % 0x400 == unit - 0xD800;
      if p + 12 <= end {
        var second := Hex4(c[p + 8..p + 12]);
        if IsLowSurrogate(second) {
          assert second % 0x400 == second - 0xDC00;
          Utf8Decodes(0x1_0000 + unit % 0x400 * 0x400 + second % 0x400);
        }
      }
    } else if !IsLowSurrogate(unit) {
      Utf8Decodes(unit);
    }
  }

  /** The low surrogate that follows, if one does, is what is read there. */
  lemma SecondUnit(c: seq<byte>, p: nat, end: nat)
    requires end < |c|
    ensures forall low: nat :: PairedAt(c, p, end, low) ==> p + 12 <= end && Hex4(c[p + 8..p + 12]) == low
    ensures p + 12 <= end && c[p + 6] == BACKSLASH && c[p + 7] == LOWER_U && IsLowSurrogate(Hex4(c[p + 8..p + 12])) ==>
              PairedAt(c, p, end, Hex4(c[p + 8..p + 12]))
  {
    hide IsHex4, Hex4, Spells;
    if p + 12 <= end {
      var h := c[p + 8..p + 12];
      forall low: nat | Spells(h, low)
        ensures Hex4(h) == low
      {
        SpelledIsRead(h, low);
      }
      if IsLowSurrogate(Hex4(h)) {
        LowSurrogateIsHex(h);
        ReadIsSpelled(h);
      }
    }
  }

  lemma LowSurrogateIsHex(h: seq<byte>)
    requires |h| == 4 && IsLowSurrogate(Hex4(h))
    ensures IsHex4(h)
  {
  }

  /** A first unit whose digits are not hexadecimal is read as the NUL character, and rejected only if it is cut off. */
  lemma MalformedDigits(c: seq<byte>, p: nat, end: nat)
    requires p < end < |c| && p + 6 <= |c| && c[p] == BACKSLASH && c[p + 1] == LOWER_U && !IsHex4(c[p + 2..p + 6])
    ensures EscapeAt(c, p, end) == if p + 6 <= end then Escape(6, [NUL]) else BadEscape
  {
  }

  /** So a string ends there: `"a\uZZZZb"` is read as "a". */
  lemma MalformedDigitsTruncate()
    ensures ParseString([QUOTE, LOWER_A, BACKSLASH, LOWER_U, 90, 90, 90, 90, LOWER_B, QUOTE, NUL], 0)
         == Parsed(String([LOWER_A]), 10)
  {
    var c: seq<byte> := [QUOTE, LOWER_A, BACKSLASH, LOWER_U, 90, 90, 90, 90, LOWER_B, QUOTE, NUL];
    assert Scan(c, 9) == Closed(9, 0);
    assert Scan(c, 8) == Scan(c, 7) == Scan(c, 6) == Scan(c, 5) == Scan(c, 4) == Closed(9, 0);
    assert Scan(c, 1) == Closed(9, 1);
    assert !IsHex4(c[4..8]) && EscapeAt(c, 2, 9) == Escape(6, [NUL]) by {
      assert HexDigit(c[4..8][0]) == -1;
    }
    assert Unescape(c, 8, 9) == Unescaped([LOWER_B]);
    assert Unescape(c, 2, 9) == Unescaped([NUL, LOWER_B]);
    var u := [LOWER_A, NUL, LOWER_B];
    assert Unescape(c, 1, 9) == Unescaped(u);
    assert u[1..][0] == NUL && CString(u[1..]) == [];
  }

  /**
   * The second pass can end one byte behind the closing quote: in `"\uZZZ\\"` it takes the first backslash of the
   * last escape for a digit, and the second one for an escape of the quote.
   */
  lemma BehindTheQuote(c: seq<byte>)
    requires c == [QUOTE, BACKSLASH, LOWER_U, 90, 90, 90, BACKSLASH, BACKSLASH, QUOTE, NUL]
    ensures Scan(c, 1) == Closed(8, 2)
    ensures EscapeAt(c, 1, 8) == Escape(6, [NUL]) && EscapeAt(c, 7, 8) == Escape(2, [QUOTE]) && 7 + 2 == 8 + 1
    ensures Unescape(c, 1, 8) == Unescaped([NUL, QUOTE])
  {
    assert Scan(c, 8) == Closed(8, 0) && Scan(c, 6) == Closed(8, 1);
    assert Scan(c, 5) == Scan(c, 4) == Scan(c, 3) == Closed(8, 1);
    assert !IsHex4(c[3..7]) by {
      assert HexDigit(c[3..7][0]) == -1;
    }
    assert Unescape(c, 7, 8) == Unescaped([QUOTE]);
  }
}
