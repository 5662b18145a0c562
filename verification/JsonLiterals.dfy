/** What any well-formed string literal is read as, piece by piece and in terms of its bytes. */
module JsonLiterals {
  import opened JsonText
  import opened JsonValue
  import opened JsonParse
  import opened JsonEscape

  /** A byte for itself, a backslash and a letter, a code unit, or two that make a surrogate pair. */
  datatype Piece =
    | Plain(b: byte)
    | Short(letter: byte)
    | Unit(code: nat, h: seq<byte>)
    | Pair(high: nat, low: nat, h: seq<byte>, l: seq<byte>)

  /** The bytes that may follow a backslash, and what each pair stands for. */
  const LETTERS: string := "bfnrt\"\\/"
  const MEANINGS: seq<byte> := [8, 12, 10, 13, 9, 34, 92, 47]

  predicate IsPiece(piece: Piece) {
    match piece
    case Plain(b) => b as int != '"' as int && b as int != '\\' as int
    case Short(letter) => exists k :: 0 <= k < |LETTERS| && LETTERS[k] as int == letter as int
    case Unit(code, h) => Spells(h, code) && !(0xD800 <= code <= 0xDFFF)
    case Pair(high, low, h, l) =>
      Spells(h, high) && Spells(l, low) && 0xD800 <= high <= 0xDBFF && 0xDC00 <= low <= 0xDFFF
  }

  function UnitText(h: seq<byte>): seq<byte> {
    ['\\' as int as byte, 'u' as int as byte] + h
  }

  function TextOf(piece: Piece): (t: seq<byte>)
    ensures t != []
  {
    match piece
    case Plain(b) => [b]
    case Short(letter) => ['\\' as int as byte, letter]
    case Unit(_, h) => UnitText(h)
    case Pair(_, _, h, l) => UnitText(h) + UnitText(l)
  }

  /** Characters are in UTF-8. */
  ghost predicate StandsFor(piece: Piece, bytes: seq<byte>) {
    match piece
    case Plain(b) => bytes == [b]
    case Short(letter) =>
      exists k :: 0 <= k < |LETTERS| && LETTERS[k] as int == letter as int && bytes == [MEANINGS[k]]
    case Unit(code, _) => Encodes(bytes, code)
    case Pair(high, low, _, _) => Encodes(bytes, 0x1_0000 + (high - 0xD800) * 0x400 + (low - 0xDC00))
  }

  function Text(pieces: seq<Piece>): seq<byte> {
    if pieces == [] then [] else TextOf(pieces[0]) + Text(pieces[1..])
  }

  ghost predicate AllStandFor(pieces: seq<Piece>, bytes: seq<byte>)
    decreases |pieces|
  {
    if pieces == [] then bytes == []
    else exists k: nat :: k <= |bytes| && StandsFor(pieces[0], bytes[..k]) && AllStandFor(pieces[1..], bytes[k..])
  }

  predicate ArePieces(pieces: seq<Piece>) {
    forall piece :: piece in pieces ==> IsPiece(piece)
  }

  // ---- one piece

  /** What the first pass makes of a piece. */
  lemma PieceScans(c: seq<byte>, p: nat, piece: Piece)
    requires IsPiece(piece) && At(c, p, TextOf(piece)) && Scan(c, p + |TextOf(piece)|).Closed?
    ensures Scan(c, p).Closed? && Scan(c, p).end == Scan(c, p + |TextOf(piece)|).end
  {
    hide Spells, Scan;
    var t := TextOf(piece);
    AtIndex(c, p, t, 0);
    match piece {
      case Plain(_) =>
        OrdinaryScans(c, p);
      case Short(_) =>
        HiddenScans(c, p);
      case Unit(code, h) =>
        FourBytes(h, code);
        UnitScans(c, p, h, code);
      case Pair(high, low, h, l) =>
        FourBytes(h, high);
        FourBytes(l, low);
        AtParts(c, p, UnitText(h), UnitText(l));
        UnitScans(c, p + 6, l, low);
        UnitScans(c, p, h, high);
    }
  }

  lemma FourBytes(h: seq<byte>, n: nat)
    requires Spells(h, n)
    ensures |h| == 4
  {
  }

  /** A code unit in a text. */
  lemma UnitStands(c: seq<byte>, p: nat, h: seq<byte>, n: nat)
    requires Spells(h, n) && At(c, p, UnitText(h))
    ensures p + 6 <= |c| && c[p] == BACKSLASH && c[p + 1] == LOWER_U && c[p + 2..p + 6] == h && |h| == 4
  {
    hide Spells;
    FourBytes(h, n);
    AtIndex(c, p, UnitText(h), 0);
    AtIndex(c, p, UnitText(h), 1);
    AtParts(c, p, ['\\' as int as byte, 'u' as int as byte], h);
  }

  lemma UnitScans(c: seq<byte>, p: nat, h: seq<byte>, n: nat)
    requires Spells(h, n) && At(c, p, UnitText(h)) && p + 6 <= |c| && Scan(c, p + 6).Closed?
    ensures Scan(c, p).Closed? && Scan(c, p).end == Scan(c, p + 6).end
  {
    hide Scan, IsHex4, Hex4, HexDigit, Spells, At;
    UnitStands(c, p, h, n);
    SpelledIsRead(h, n);
    HexIsOrdinary(h, 0);
    HexIsOrdinary(h, 1);
    HexIsOrdinary(h, 2);
    HexIsOrdinary(h, 3);
    assert h[0] == c[p + 2] && h[1] == c[p + 3] && h[2] == c[p + 4] && h[3] == c[p + 5];
    OrdinaryScans(c, p + 5);
    OrdinaryScans(c, p + 4);
    OrdinaryScans(c, p + 3);
    OrdinaryScans(c, p + 2);
    HiddenScans(c, p);
  }

  lemma OrdinaryScans(c: seq<byte>, p: nat)
    requires p < |c| && c[p] != BACKSLASH && c[p] != QUOTE
    ensures Scan(c, p) == Scan(c, p + 1)
  {
  }

  lemma HiddenScans(c: seq<byte>, p: nat)
    requires p + 1 < |c| && c[p] == BACKSLASH && Scan(c, p + 2).Closed?
    ensures Scan(c, p).Closed? && Scan(c, p).end == Scan(c, p + 2).end
  {
  }

  /** What the second pass makes of it. */
  lemma PieceDecodes(c: seq<byte>, p: nat, end: nat, piece: Piece, bytes: seq<byte>)
    requires IsPiece(piece) && StandsFor(piece, bytes) && At(c, p, TextOf(piece)) && p + |TextOf(piece)| <= end < |c|
    ensures match piece
            case Plain(b) => c[p] == b && b != BACKSLASH && b != QUOTE
            case _ => c[p] == BACKSLASH && EscapeAt(c, p, end) == Escape(|TextOf(piece)|, bytes)
  {
    hide Spells, Encodes;
    var t := TextOf(piece);
    AtIndex(c, p, t, 0);
    match piece {
      case Plain(_) =>
      case Short(letter) =>
        AtIndex(c, p, t, 1);
        ShortDecodes(c, p, end, letter, bytes);
      case Unit(code, h) =>
        UnitStands(c, p, h, code);
        UnicodeEscape(c, p, end, code);
        EncodesOnce(bytes, EscapeAt(c, p, end).bytes, code);
      case Pair(high, low, h, l) =>
        AtParts(c, p, UnitText(h), UnitText(l));
        UnitStands(c, p, h, high);
        UnitStands(c, p + 6, l, low);
        assert PairedAt(c, p, end, low);
        UnicodeEscape(c, p, end, high);
        EncodesOnce(bytes, EscapeAt(c, p, end).bytes, 0x1_0000 + (high - 0xD800) * 0x400 + (low - 0xDC00));
    }
  }

  lemma EncodesOnce(u: seq<byte>, v: seq<byte>, code: int)
    requires Encodes(u, code) && Encodes(v, code)
    ensures u == v
  {
    hide WellFormedUtf8, CodePoint, Utf8;
    Utf8IsUnique(u);
    Utf8IsUnique(v);
  }

  lemma ShortDecodes(c: seq<byte>, p: nat, end: nat, letter: byte, bytes: seq<byte>)
    requires p + 2 <= end < |c| && c[p + 1] == letter
    requires exists k :: 0 <= k < |LETTERS| && LETTERS[k] as int == letter as int && bytes == [MEANINGS[k]]
    ensures EscapeAt(c, p, end) == Escape(2, bytes)
  {
    hide Utf16Escape;
    var k :| 0 <= k < |LETTERS| && LETTERS[k] as int == letter as int && bytes == [MEANINGS[k]];
    assert k == 0 || k == 1 || k == 2 || k == 3 || k == 4 || k == 5 || k == 6 || k == 7;
  }

  // ---- the whole literal

  lemma {:induction false} TextScans(c: seq<byte>, p: nat, pieces: seq<Piece>)
    requires ArePieces(pieces) && At(c, p, Text(pieces)) && p + |Text(pieces)| < |c| && c[p + |Text(pieces)|] == QUOTE
    ensures Scan(c, p).Closed? && Scan(c, p).end == p + |Text(pieces)|
    decreases |pieces|
  {
    hide At, TextOf, Spells, IsPiece;
    if pieces != [] {
      var first, rest := pieces[0], pieces[1..];
      AtParts(c, p, TextOf(first), Text(rest));
      TextScans(c, p + |TextOf(first)|, rest);
      PieceScans(c, p, first);
    }
  }

  lemma {:induction false} TextDecodes(c: seq<byte>, p: nat, pieces: seq<Piece>, bytes: seq<byte>, end: nat)
    requires ArePieces(pieces) && AllStandFor(pieces, bytes) && At(c, p, Text(pieces))
    requires end == p + |Text(pieces)| < |c|
    ensures Unescape(c, p, end) == Unescaped(bytes)
    decreases |pieces|
  {
    hide At, TextOf, Spells, IsPiece, StandsFor, EscapeAt;
    if pieces != [] {
      var first, rest := pieces[0], pieces[1..];
      var k: nat :| k <= |bytes| && StandsFor(first, bytes[..k]) && AllStandFor(rest, bytes[k..]);
      AtParts(c, p, TextOf(first), Text(rest));
      TextDecodes(c, p + |TextOf(first)|, rest, bytes[k..], end);
      OnePiece(c, p, end, first, bytes[..k], bytes[k..]);
      assert bytes[..k] + bytes[k..] == bytes;
    }
  }

  lemma OnePiece(c: seq<byte>, p: nat, end: nat, piece: Piece, bytes: seq<byte>, rest: seq<byte>)
    requires IsPiece(piece) && StandsFor(piece, bytes) && At(c, p, TextOf(piece)) && p + |TextOf(piece)| <= end < |c|
    requires Unescape(c, p + |TextOf(piece)|, end) == Unescaped(rest)
    ensures Unescape(c, p, end) == Unescaped(bytes + rest)
  {
    hide At, Spells, EscapeAt, IsPiece;
    PieceDecodes(c, p, end, piece, bytes);
  }

  /**
   * A literal made of such pieces is read as the string they stand for, up to its first NUL, and the cursor stops
   * behind its closing quote.
   */
  lemma LiteralIsRead(c: seq<byte>, p: nat, pieces: seq<Piece>, bytes: seq<byte>)
    requires ArePieces(pieces) && AllStandFor(pieces, bytes)
    requires At(c, p, ['"' as int as byte] + Text(pieces) + ['"' as int as byte])
    ensures p < |c| && ParseString(c, p) == Parsed(String(CString(bytes)), p + |Text(pieces)| + 2)
  {
    hide At, Text, AllStandFor, ArePieces, Scan, Unescape;
    var quote, text := ['"' as int as byte], Text(pieces);
    var end := p + 1 + |text|;
    AtParts(c, p, quote + text, quote);
    assert p + |quote + text| == end;
    AtParts(c, p, quote, text);
    AtIndex(c, p, quote, 0);
    AtIndex(c, end, quote, 0);
    TextScans(c, p + 1, pieces);
    TextDecodes(c, p + 1, pieces, bytes, end);
  }

  // ---- what is no literal

  /** A backslash is followed by one of the eight letters or by a unit; anything else is refused at the backslash. */
  lemma OtherLetters(c: seq<byte>, p: nat, end: nat)
    requires p < end < |c| && c[p] as int == '\\' as int && c[p + 1] as int != 'u' as int
    requires forall k :: 0 <= k < |LETTERS| ==> LETTERS[k] as int != c[p + 1] as int
    ensures EscapeAt(c, p, end) == BadEscape && Unescape(c, p, end) == BadAt(p)
  {
    assert LETTERS[0] == 'b' && LETTERS[1] == 'f' && LETTERS[2] == 'n' && LETTERS[3] == 'r';
    assert LETTERS[4] == 't' && LETTERS[5] == '"' && LETTERS[6] == '\\' && LETTERS[7] == '/';
  }

  /** Behind pieces that are fine, such an escape is what the whole literal is refused for. */
  lemma {:induction false} RefusedBehind(c: seq<byte>, p: nat, pieces: seq<Piece>, bytes: seq<byte>, end: nat)
    requires ArePieces(pieces) && AllStandFor(pieces, bytes) && At(c, p, Text(pieces))
    requires p + |Text(pieces)| < end < |c| && c[p + |Text(pieces)|] as int == '\\' as int
    requires EscapeAt(c, p + |Text(pieces)|, end) == BadEscape
    ensures Unescape(c, p, end) == BadAt(p + |Text(pieces)|)
    decreases |pieces|
  {
    hide At, TextOf, Spells, IsPiece, StandsFor, EscapeAt;
    if pieces != [] {
      var first, rest := pieces[0], pieces[1..];
      var k: nat :| k <= |bytes| && StandsFor(first, bytes[..k]) && AllStandFor(rest, bytes[k..]);
      AtParts(c, p, TextOf(first), Text(rest));
      RefusedBehind(c, p + |TextOf(first)|, rest, bytes[k..], end);
      OneBadPiece(c, p, end, first, bytes[..k]);
    }
  }

  lemma OneBadPiece(c: seq<byte>, p: nat, end: nat, piece: Piece, bytes: seq<byte>)
    requires IsPiece(piece) && StandsFor(piece, bytes) && At(c, p, TextOf(piece)) && p + |TextOf(piece)| <= end < |c|
    requires Unescape(c, p + |TextOf(piece)|, end).BadAt?
    ensures Unescape(c, p, end) == Unescape(c, p + |TextOf(piece)|, end)
  {
    hide At, Spells, EscapeAt, IsPiece;
    PieceDecodes(c, p, end, piece, bytes);
  }

  /** Without a further quote, or without a first one, there is no literal. */
  lemma {:induction false} NoFurtherQuote(c: seq<byte>, p: nat)
    requires p <= |c| && forall i :: p <= i < |c| ==> c[i] as int != '"' as int
    ensures Scan(c, p).Unclosed?
    decreases |c| - p
  {
    if p < |c| {
      NoFurtherQuote(c, p + 1);
      if p + 1 < |c| {
        NoFurtherQuote(c, p + 2);
      }
    }
  }

  lemma NoLiteral(c: seq<byte>, p: nat)
    requires p < |c| && (c[p] as int == '"' as int ==> forall i :: p < i < |c| ==> c[i] as int != '"' as int)
    ensures ParseString(c, p) == Failed(p + 1)
  {
    if c[p] == QUOTE {
      NoFurtherQuote(c, p + 1);
    }
  }
}
