/** What a number's text is read as, in terms of its digits. */
module JsonNumbers {
  import opened JsonText
  import opened JsonValue
  import opened JsonParse
  import opened JsonRoundTrip

  predicate AreDigits(t: seq<byte>) {
    forall i :: 0 <= i < |t| ==> '0' as int <= t[i] as int <= '9' as int
  }

  function Ten(k: nat): nat {
    if k == 0 then 1 else 10 * Ten(k - 1)
  }

  /** The number that digits spell, most significant digit first. */
  function Spelled(t: seq<byte>): nat
    requires AreDigits(t)
  {
    if t == [] then 0 else (t[0] as int - '0' as int) * Ten(|t| - 1) + Spelled(t[1..])
  }

  /** A sign, digits before and behind the point, if there is one, and an exponent, if there is one. */
  datatype Numeral = Numeral(
    sign: string, whole: seq<byte>, point: bool, fraction: seq<byte>,
    letter: string, expSign: string, exponent: seq<byte>)

  predicate IsNumeral(n: Numeral) {
    n.sign in {"", "-", "+"} && n.letter in {"", "e", "E"} && n.expSign in {"", "-", "+"}
    && AreDigits(n.whole) && AreDigits(n.fraction) && AreDigits(n.exponent)
    && (n.whole != [] || n.fraction != []) && (n.fraction != [] ==> n.point)
    && (n.letter == "" ==> n.expSign == "" && n.exponent == [])
  }

  function Bytes(s: string): seq<byte>
    requires forall i :: 0 <= i < |s| ==> s[i] as int < 256
  {
    seq(|s|, i requires 0 <= i < |s| => s[i] as int as byte)
  }

  /** The text without its exponent. */
  function Mantissa(n: Numeral): seq<byte>
    requires IsNumeral(n)
  {
    Bytes(n.sign) + n.whole + (if n.point then ['.' as int as byte] else []) + n.fraction
  }

  function TextOf(n: Numeral): seq<byte>
    requires IsNumeral(n)
  {
    Mantissa(n) + (Bytes(n.letter) + Bytes(n.expSign) + n.exponent)
  }

  /** The real number it denotes, without division: r * 10^|fraction| is the digits times the power of ten. */
  predicate Denotes(n: Numeral, r: real)
    requires IsNumeral(n)
  {
    IsScaled(r, if n.sign == "-" then 0.0 - Digits(n) as real else Digits(n) as real,
             |n.fraction|, Spelled(n.exponent), n.expSign == "-")
  }

  /** All digits of the mantissa, without the point. */
  function Digits(n: Numeral): int
    requires IsNumeral(n)
  {
    Spelled(n.whole) * Ten(|n.fraction|) + Spelled(n.fraction)
  }

  /** r * 10^f == m * 10^x, or, with a negative exponent, r * 10^f * 10^x == m. */
  predicate IsScaled(r: real, m: real, f: nat, x: nat, negative: bool) {
    IsScaledBy(r, m, Ten(f), Ten(x), negative)
  }

  predicate IsScaledBy(r: real, m: real, down: nat, up: nat, negative: bool) {
    if negative then r * down as real * up as real == m else r * down as real == m * up as real
  }

  // ---- digits

  lemma {:induction false} SpelledBehind(t: seq<byte>, b: byte)
    requires AreDigits(t + [b])
    ensures AreDigits(t) && Spelled(t + [b]) == 10 * Spelled(t) + (b as int - '0' as int)
    decreases |t|
  {
    var tb := t + [b];
    assert AreDigits(t) by {
      assert forall i :: 0 <= i < |t| ==> tb[i] == t[i];
    }
    assert tb[|t|] == b;
    if t != [] {
      assert tb[1..] == t[1..] + [b];
      SpelledBehind(t[1..], b);
      Digits10(tb[0] as int - '0' as int, |t| - 1, Spelled(t[1..]));
    }
  }

  lemma Digits10(d: int, k: nat, rest: int)
    ensures d * Ten(k + 1) + 10 * rest == 10 * (d * Ten(k) + rest)
  {
  }

  lemma {:induction false} ValueIsSpelled(t: seq<byte>)
    requires AreDigits(t)
    ensures AllDigits(t) && DigitsValue(t) == Spelled(t)
    decreases |t|
  {
    if t != [] {
      var init, last := t[..|t| - 1], t[|t| - 1];
      assert init + [last] == t;
      SpelledBehind(init, last);
      ValueIsSpelled(init);
    }
  }

  lemma {:induction false} SpelledTwice(a: seq<byte>, b: seq<byte>)
    requires AreDigits(a) && AreDigits(b)
    ensures AreDigits(a + b) && Spelled(a + b) == Spelled(a) * Ten(|b|) + Spelled(b)
    decreases |b|, 1
  {
    assert AreDigits(a + b);
    if b == [] {
      assert a + b == a && Spelled(b) == 0 && Ten(0) == 1;
    } else {
      var init, last := b[..|b| - 1], b[|b| - 1];
      OneMoreDigit(a, init, last);
      assert a + b == (a + init) + [last] && b == init + [last];
    }
  }

  lemma {:induction false} OneMoreDigit(a: seq<byte>, init: seq<byte>, last: byte)
    requires AreDigits(a) && AreDigits(init + [last]) && AreDigits((a + init) + [last])
    ensures Spelled((a + init) + [last]) == Spelled(a) * Ten(|init| + 1) + Spelled(init + [last])
    decreases |init| + 1, 0
  {
    hide Spelled, Ten;
    SpelledBehind(a + init, last);
    SpelledBehind(init, last);
    SpelledTwice(a, init);
    Shifted10(Spelled(a), |init|);
  }

  lemma Shifted10(a: int, k: nat)
    ensures a * Ten(k + 1) == 10 * (a * Ten(k))
  {
  }

  lemma {:induction false} TenIsPower(k: nat)
    ensures PowerOfTen(k) == Ten(k) as real && Ten(k) > 0
    decreases k
  {
    if k > 0 {
      TenIsPower(k - 1);
    }
  }

  lemma {:induction false} TenOfSum(a: nat, b: nat)
    ensures Ten(a + b) == Ten(a) * Ten(b)
    decreases b
  {
    if b > 0 {
      TenOfSum(a, b - 1);
      assert Ten(a + b) == 10 * (Ten(a) * Ten(b - 1)) == Ten(a) * (10 * Ten(b - 1));
    }
  }

  /** Scaling by the exponent less the number of fraction digits, with no division. */
  lemma ScaleMeans(m: real, f: nat, x: nat, negative: bool, shift: int)
    requires if negative then shift + f + x == 0 else shift + f == x
    ensures IsScaled(Scale(m, shift), m, f, x, negative)
  {
    hide IsScaled;
    if shift < 0 {
      ScaledDown(m, f, x, negative, shift, -shift);
    } else if negative {
      Unscaled(m);
    } else {
      ScaledUp(m, f, x, shift);
    }
  }

  lemma Unscaled(m: real)
    ensures Scale(m, 0) == m && IsScaled(m, m, 0, 0, true)
  {
    assert PowerOfTen(0) == 1.0;
  }

  lemma ScaledUp(m: real, f: nat, x: nat, shift: nat)
    requires shift + f == x
    ensures IsScaled(Scale(m, shift), m, f, x, false)
  {
    hide IsScaledBy;
    TenIsPower(shift);
    TenOfSum(shift, f);
    ScaleUpIs(m, shift);
    Multiplied(Scale(m, shift), m, PowerOfTen(shift), Ten(shift), Ten(f), Ten(x));
  }

  lemma ScaleUpIs(m: real, shift: nat)
    ensures Scale(m, shift) == m * PowerOfTen(shift)
  {
  }

  lemma ScaledDown(m: real, f: nat, x: nat, negative: bool, shift: int, down: nat)
    requires shift + down == 0 < down && if negative then down == f + x else down + x == f
    ensures IsScaled(Scale(m, shift), m, f, x, negative)
  {
    hide IsScaledBy;
    TenIsPower(down);
    if negative {
      TenOfSum(f, x);
      Divided(m, PowerOfTen(down), Ten(f), Ten(x), Ten(down));
    } else {
      TenOfSum(down, x);
      DividedBack(m, PowerOfTen(down), Ten(down), Ten(x), Ten(f));
    }
  }

  lemma Multiplied(r: real, m: real, p: real, a: nat, b: nat, d: nat)
    requires r == m * p && p == a as real && d == a * b
    ensures IsScaledBy(r, m, b, d, false)
  {
    Product(a, b);
    Grouped(m, p, b as real);
  }

  lemma Divided(m: real, p: real, a: nat, b: nat, d: nat)
    requires p == d as real > 0.0 && d == a * b
    ensures IsScaledBy(m / p, m, a, b, true)
  {
    var r := m / p;
    Undo(m, p, r);
    Product(a, b);
    Grouped(r, a as real, b as real);
  }

  lemma DividedBack(m: real, p: real, d: nat, b: nat, a: nat)
    requires p == d as real > 0.0 && d * b == a
    ensures IsScaledBy(m / p, m, a, b, false)
  {
    var r := m / p;
    Undo(m, p, r);
    Product(d, b);
    Grouped(r, p, b as real);
  }

  lemma Grouped(a: real, b: real, c: real)
    ensures a * b * c == a * (b * c)
  {
  }

  lemma Product(a: nat, b: nat)
    ensures (a * b) as real == a as real * b as real
  {
  }

  lemma Undo(m: real, d: real, r: real)
    requires d > 0.0 && r == m / d
    ensures r * d == m
  {
  }

  // ---- the text

  /** Where a run of digits that starts at i ends. */
  lemma {:induction false} DigitsEndAt(t: seq<byte>, i: nat, j: nat)
    requires i <= j <= |t| && AreDigits(t[i..j]) && (j < |t| ==> !IsDigit(t[j]))
    ensures DigitsEnd(t, i) == j
    decreases j - i
  {
    if i < j {
      assert t[i..j][0] == t[i] && t[i..j][1..] == t[i + 1..j];
      DigitsEndAt(t, i + 1, j);
    }
  }

  lemma AreAllDigits(t: seq<byte>)
    ensures AreDigits(t) <==> AllDigits(t)
  {
  }

  /** The parts of a text in terms of positions: a sign before a, whole before b, fraction from g to e. */
  lemma StrtodAt(t: seq<byte>, a: nat, b: nat, g: nat, e: nat)
    requires a <= b <= g <= e <= |t| && a <= 1 && g <= b + 1
    requires a == 1 <==> t != [] && (t[0] as int == '-' as int || t[0] as int == '+' as int)
    requires AreDigits(t[a..b]) && AreDigits(t[g..e]) && (a < b || g < e)
    requires if g == b + 1 then t[b] as int == '.' as int else e == g && (b < |t| ==> !IsDigit(t[b]) && t[b] != DOT)
    requires e < |t| ==> !IsDigit(t[e])
    ensures AllDigits(t[a..b] + t[g..e])
    ensures var digits := DigitsValue(t[a..b] + t[g..e]) as real;
            Strtod(t) == (Exponent(t, e).0, Scale(if t[0] as int == '-' as int then -digits else digits,
                                                  g as int - e as int + Exponent(t, e).1))
  {
    hide DigitsValue, Scale, Exponent;
    DigitsEndAt(t, a, b);
    DigitsEndAt(t, g, e);
  }

  /** An exponent with its digits from h on, perhaps none, to the end of the text. */
  lemma ExponentAt(t: seq<byte>, e: nat, h: nat)
    requires e < h <= |t| && h <= e + 2 && AreDigits(t[h..])
    requires t[e] as int == 'e' as int || t[e] as int == 'E' as int
    requires if h == e + 2 then t[e + 1] as int == '-' as int || t[e + 1] as int == '+' as int
             else h < |t| ==> IsDigit(t[h])
    ensures var x := Spelled(t[h..]);
            Exponent(t, e) == if h == |t| then (e, 0)
                              else (|t|, if h == e + 2 && t[e + 1] as int == '-' as int then 0 - x else x)
  {
    hide DigitsValue, Spelled;
    assert t[h..|t|] == t[h..];
    ValueIsSpelled(t[h..]);
    DigitsEndAt(t, h, |t|);
  }

  /** Where the parts of a text are. */
  lemma PartsOf(t: seq<byte>, s: seq<byte>, w: seq<byte>, d: seq<byte>, f: seq<byte>, tail: seq<byte>)
    requires t == s + w + d + f + tail
    ensures var a, b, g, e := |s|, |s| + |w|, |s| + |w| + |d|, |s| + |w| + |d| + |f|;
            e <= |t| && t[..a] == s && t[a..b] == w && t[b..g] == d && t[g..e] == f && t[e..] == tail
  {
  }

  lemma TailOf(t: seq<byte>, e: nat, l: seq<byte>, s: seq<byte>, x: seq<byte>)
    requires e <= |t| && t[e..] == l + s + x
    ensures var h := e + |l| + |s|;
            h <= |t| && t[e..e + |l|] == l && t[e + |l|..h] == s && t[h..] == x
  {
    assert t[e..][..|l|] == l && t[e..][|l|..|l| + |s|] == s && t[e..][|l| + |s|..] == x;
  }

  lemma BytesOf(n: Numeral)
    requires IsNumeral(n)
    ensures n.sign in {"", "-", "+"} && |Bytes(n.sign)| == |n.sign|
    ensures forall i :: 0 <= i < |n.letter| ==> n.letter[i] as int < 256
    ensures forall i :: 0 <= i < |n.expSign| ==> n.expSign[i] as int < 256
  {
  }

  /** Where the parts of a numeral's text are. */
  lemma NumeralParts(n: Numeral, t: seq<byte>)
    requires IsNumeral(n) && t == TextOf(n)
    ensures var a := |n.sign|;
            var b := a + |n.whole|;
            var g := b + (if n.point then 1 else 0);
            var e := g + |n.fraction|;
            e == |Mantissa(n)| <= |t| && t[a..b] == n.whole && t[g..e] == n.fraction
            && t[e..] == Bytes(n.letter) + Bytes(n.expSign) + n.exponent
            && (a == 1 ==> t[0] as int == n.sign[0] as int) && (n.point ==> t[b] as int == '.' as int)
  {
    hide Bytes, IsNumeral;
    BytesOf(n);
    var dot := if n.point then ['.' as int as byte] else [];
    var tail := Bytes(n.letter) + Bytes(n.expSign) + n.exponent;
    PartsOf(t, Bytes(n.sign), n.whole, dot, n.fraction, tail);
    PartsOfSign(t, n.sign, |n.whole|, n.point);
  }

  lemma ExponentParts(n: Numeral, t: seq<byte>, e: nat)
    requires IsNumeral(n) && e <= |t| && t[e..] == Bytes(n.letter) + Bytes(n.expSign) + n.exponent
    ensures var h := e + |n.letter| + |n.expSign|;
            h <= |t| && t[h..] == n.exponent
            && (n.letter != "" ==> t[e] as int == n.letter[0] as int)
            && (n.expSign != "" ==> t[e + 1] as int == n.expSign[0] as int)
            && (n.letter == "" ==> |t| == e)
  {
    TailOf(t, e, Bytes(n.letter), Bytes(n.expSign), n.exponent);
    if n.letter != "" {
      assert t[e..e + 1][0] == t[e];
      if n.expSign != "" {
        assert t[e + 1..e + 2][0] == t[e + 1];
      }
    }
  }

  lemma PartsOfSign(t: seq<byte>, sign: string, w: nat, point: bool)
    requires sign in {"", "-", "+"} && |sign| <= |t| && t[..|sign|] == Bytes(sign)
    requires point ==> |sign| + w < |t| && t[|sign| + w..|sign| + w + 1] == ['.' as int as byte]
    ensures |sign| == 1 ==> t[0] as int == sign[0] as int
    ensures point ==> t[|sign| + w] as int == '.' as int
  {
    if |sign| == 1 {
      assert t[..1][0] == t[0];
    }
    if point {
      assert t[|sign| + w..|sign| + w + 1][0] == t[|sign| + w];
    }
  }

  /** The bytes a number can be made of. */
  predicate IsNumeric(b: byte) {
    exists k :: 0 <= k < |NUMERIC| && NUMERIC[k] as int == b as int
  }

  const NUMERIC: string := "0123456789+-eE."

  lemma NumericBytes(b: byte)
    ensures IsNumeric(b) <==> IsNumberByte(b)
  {
    assert NUMERIC[0] == '0' && NUMERIC[1] == '1' && NUMERIC[2] == '2' && NUMERIC[3] == '3' && NUMERIC[4] == '4';
    assert NUMERIC[5] == '5' && NUMERIC[6] == '6' && NUMERIC[7] == '7' && NUMERIC[8] == '8' && NUMERIC[9] == '9';
    assert NUMERIC[10] == '+' && NUMERIC[11] == '-' && NUMERIC[12] == 'e' && NUMERIC[13] == 'E' && NUMERIC[14] == '.';
  }

  ghost predicate AllNumeric(t: seq<byte>) {
    forall i :: 0 <= i < |t| ==> IsNumberByte(t[i])
  }

  lemma NumericTwice(a: seq<byte>, b: seq<byte>)
    requires AllNumeric(a) && AllNumeric(b)
    ensures AllNumeric(a + b)
  {
  }

  lemma NumericParts(n: Numeral)
    requires IsNumeral(n)
    ensures AllNumeric(Bytes(n.sign)) && AllNumeric(n.whole) && AllNumeric(n.fraction) && AllNumeric(n.exponent)
    ensures AllNumeric(Bytes(n.letter)) && AllNumeric(Bytes(n.expSign)) && AllNumeric(['.' as int as byte])
    ensures AllNumeric([])
  {
  }

  lemma NumeralIsNumeric(n: Numeral)
    requires IsNumeral(n)
    ensures AllNumeric(TextOf(n))
  {
    hide AllNumeric, Bytes;
    NumericParts(n);
    var dot := if n.point then ['.' as int as byte] else [];
    NumericTwice(Bytes(n.sign), n.whole);
    NumericTwice(Bytes(n.sign) + n.whole, dot);
    NumericTwice(Bytes(n.sign) + n.whole + dot, n.fraction);
    NumericTwice(Bytes(n.letter), Bytes(n.expSign));
    NumericTwice(Bytes(n.letter) + Bytes(n.expSign), n.exponent);
    NumericTwice(Mantissa(n), Bytes(n.letter) + Bytes(n.expSign) + n.exponent);
  }

  /** A text starts with a sign only if the numeral has it. */
  lemma StartsWith(n: Numeral, t: seq<byte>)
    requires IsNumeral(n) && t == TextOf(n)
    ensures t != [] && (|n.sign| == 1 <==> t[0] as int == '-' as int || t[0] as int == '+' as int)
    ensures t[0] as int == '-' as int <==> n.sign == "-"
  {
    NumeralParts(n, t);
    hide Mantissa, TextOf;
    if n.sign == "" && n.whole != [] {
      assert t[0..|n.whole|][0] == t[0];
    }
  }

  /** What follows the mantissa is no digit, and no point. */
  lemma GoesOnWith(n: Numeral, t: seq<byte>, e: nat)
    requires IsNumeral(n) && t == TextOf(n) && e == |Mantissa(n)|
    ensures e < |t| ==> n.letter != "" && !IsDigit(t[e]) && t[e] != DOT
    ensures var h := e + |n.letter| + |n.expSign|; h < |t| ==> t[h..][0] == t[h] && IsDigit(t[h])
  {
    NumeralParts(n, t);
    hide Mantissa, TextOf;
    ExponentParts(n, t, e);
  }

  lemma NoExponent(t: seq<byte>)
    ensures Exponent(t, |t|) == (|t|, 0) && Spelled([]) == 0
  {
  }

  lemma SomeDigits(n: Numeral)
    requires IsNumeral(n)
    ensures AreDigits(n.whole) && AreDigits(n.fraction) && (n.whole != [] || n.fraction != [])
    ensures (n.fraction != [] ==> n.point) && |n.sign| <= 1
  {
  }

  /** The mantissa. */
  lemma MantissaText(n: Numeral, t: seq<byte>, e: nat)
    requires IsNumeral(n) && t == TextOf(n) && e == |Mantissa(n)|
    ensures 0 < e <= |t|
    ensures Strtod(t) == (Exponent(t, e).0,
                          Scale(if n.sign == "-" then 0.0 - Digits(n) as real else Digits(n) as real,
                                Exponent(t, e).1 - |n.fraction|))
  {
    hide Mantissa, TextOf, Strtod, Exponent, Scale;
    hide DigitsValue, Digits, Spelled, Bytes, IsNumeral, AreDigits, AllDigits;
    NumeralParts(n, t);
    SomeDigits(n);
    StartsWith(n, t);
    GoesOnWith(n, t, e);
    var a := |n.sign|;
    var b := a + |n.whole|;
    var g := b + (if n.point then 1 else 0);
    StrtodAt(t, a, b, g, e);
    AllTheDigits(n);
    assert t[a..b] + t[g..e] == n.whole + n.fraction;
    assert g as int - e as int + Exponent(t, e).1 == Exponent(t, e).1 - |n.fraction|;
  }

  lemma AllTheDigits(n: Numeral)
    requires IsNumeral(n)
    ensures AllDigits(n.whole + n.fraction) && DigitsValue(n.whole + n.fraction) == Digits(n)
  {
    hide Spelled, Ten, DigitsValue;
    SpelledTwice(n.whole, n.fraction);
    ValueIsSpelled(n.whole + n.fraction);
  }

  /** All of a numeral is taken, or all but an exponent without digits, and the number it denotes is read. */
  lemma NumeralText(n: Numeral)
    requires IsNumeral(n)
    ensures var (length, r) := Strtod(TextOf(n));
            length == (if n.exponent == [] then |Mantissa(n)| else |TextOf(n)|) && length > 0 && Denotes(n, r)
  {
    hide Mantissa, TextOf, Strtod, Exponent, Scale, IsScaled, Digits, Spelled, Bytes;
    var t, e := TextOf(n), |Mantissa(n)|;
    NumeralParts(n, t);
    GoesOnWith(n, t, e);
    MantissaText(n, t, e);
    ExponentParts(n, t, e);
    NoExponent(t);
    if n.letter != "" {
      ExponentAt(t, e, e + |n.letter| + |n.expSign|);
    }
    ScaleMeans(if n.sign == "-" then 0.0 - Digits(n) as real else Digits(n) as real,
               |n.fraction|, Spelled(n.exponent), n.expSign == "-", Exponent(t, e).1 - |n.fraction|);
  }

  /**
   * Any numeral of at most 63 bytes that no further number byte follows is read as the number it denotes, and the
   * cursor stops behind it; an exponent without digits is left where it is. Of a longer run the first 63 bytes count.
   */
  lemma NumeralIsRead(c: seq<byte>, p: nat, n: Numeral)
    requires IsNumeral(n) && |TextOf(n)| <= 63 && At(c, p, TextOf(n))
    requires |TextOf(n)| < 63 && p + |TextOf(n)| < |c| ==> !IsNumeric(c[p + |TextOf(n)|])
    ensures var r := ParseNumber(c, p);
            r.Parsed? && r.value.Number? && Denotes(n, r.value.number)
            && r.pos == p + if n.exponent == [] then |Mantissa(n)| else |TextOf(n)|
  {
    hide TextOf, Mantissa, Strtod, Denotes, IsNumeral, IsNumeric;
    var t := TextOf(n);
    if p + |t| < |c| {
      NumericBytes(c[p + |t|]);
    }
    NumeralIsNumeric(n);
    RunIs(c, p, t, 63);
    NumeralText(n);
  }

  lemma {:induction false} RunIs(c: seq<byte>, p: nat, t: seq<byte>, room: nat)
    requires At(c, p, t) && |t| <= room && AllNumeric(t)
    requires |t| < room && p + |t| < |c| ==> !IsNumberByte(c[p + |t|])
    ensures NumberRun(c, p, room) == t
    decreases |t|
  {
    if t != [] {
      AtIndex(c, p, t, 0);
      assert t == [t[0]] + t[1..];
      AtParts(c, p, [t[0]], t[1..]);
      RunIs(c, p + 1, t[1..], room - 1);
    }
  }

  /** A numeral denotes one number. */
  lemma DenotesOne(n: Numeral, r: real, s: real)
    requires IsNumeral(n) && Denotes(n, r) && Denotes(n, s)
    ensures r == s
  {
    hide IsScaledBy, Digits;
    TenIsPower(|n.fraction|);
    TenIsPower(Spelled(n.exponent));
    ScaledOnce(r, s, if n.sign == "-" then 0.0 - Digits(n) as real else Digits(n) as real,
               Ten(|n.fraction|), Ten(Spelled(n.exponent)), n.expSign == "-");
  }

  lemma ScaledOnce(r: real, s: real, m: real, down: nat, up: nat, negative: bool)
    requires down > 0 && up > 0 && IsScaledBy(r, m, down, up, negative) && IsScaledBy(s, m, down, up, negative)
    ensures r == s
  {
    if negative {
      Cancel(r * down as real, s * down as real, up as real, m);
      Cancel(r, s, down as real, r * down as real);
    } else {
      Cancel(r, s, down as real, m * up as real);
    }
  }

  lemma Cancel(r: real, s: real, d: real, x: real)
    requires d > 0.0 && r * d == x && s * d == x
    ensures r == s
  {
    Quotient(r, d);
    Quotient(s, d);
  }

  lemma Quotient(r: real, d: real)
    requires d > 0.0
    ensures r * d / d == r
  {
  }

  /** Where no numeral starts, nothing is read: no digit behind the sign, nor behind a point behind it. */
  lemma NoNumeral(c: seq<byte>, p: nat)
    requires p < |c| && c[p] as int != '.' as int && !IsDigit(c[p])
    requires p + 1 < |c| ==> !IsDigit(c[p + 1]) && c[p + 1] as int != '.' as int
    ensures ParseNumber(c, p) == Failed(p)
  {
    var t := NumberRun(c, p, NUMBER_BUFFER);
    if |t| > 0 {
      AtIndex(c, p, t, 0);
    }
    if |t| > 1 {
      AtIndex(c, p, t, 1);
    }
  }

  /** The integer beside a number: the number without its fraction, or the nearest 32-bit integer. */
  lemma IntegerBeside(r: real)
    ensures var n := ValueInt(r);
            if r >= 2147483647.0 then n == 2147483647
            else if r <= -2147483648.0 then n == -2147483648
            else if r >= 0.0 then n as real <= r < n as real + 1.0
            else n as real - 1.0 < r <= n as real
  {
  }
}
