/** The text the printer chooses among those that parse to a value: digits, escapes and layout. */
module JsonLayout {
  import opened JsonText
  import opened JsonValue
  import opened JsonUnparse
  import opened JsonParse
  import opened JsonEscape
  import opened JsonLiterals
  import opened JsonNumbers

  // ---- numbers

  /** A number is printed in decimal, without leading zeros, and with a sign only if it is negative. */
  lemma {:induction false} DigitsSpell(n: nat)
    ensures AreDigits(JsonUnparse.Digits(n)) && Spelled(JsonUnparse.Digits(n)) == n
    ensures |JsonUnparse.Digits(n)| > 1 ==> JsonUnparse.Digits(n)[0] as int != '0' as int
    decreases n
  {
    hide Spelled;
    var t := JsonUnparse.Digits(n);
    AreAllDigits(t);
    if n < 10 {
      OneDigit(n);
    } else {
      DigitsSpell(n / 10);
      SpelledBehind(JsonUnparse.Digits(n / 10), ZERO + (n % 10) as byte);
      LeadingDigit(n / 10);
    }
  }

  lemma OneDigit(n: nat)
    requires n < 10
    ensures Spelled([ZERO + n as byte]) == n
  {
    assert [ZERO + n as byte][1..] == [] && Ten(0) == 1;
  }

  lemma {:induction false} LeadingDigit(n: nat)
    requires n > 0
    ensures JsonUnparse.Digits(n)[0] as int != '0' as int
    decreases n
  {
    if n >= 10 {
      LeadingDigit(n / 10);
    }
  }

  lemma DecimalSpells(n: int)
    ensures var t := Decimal(n);
            if n < 0 then
              t[0] as int == '-' as int && AreDigits(t[1..]) && Spelled(t[1..]) == -n && t[1] as int != '0' as int
            else AreDigits(t) && Spelled(t) == n && (n > 0 ==> t[0] as int != '0' as int)
  {
    hide Spelled, AreDigits;
    DigitsSpell(if n < 0 then -n else n);
    if n < 0 {
      LeadingDigit(-n);
      assert Decimal(n)[1..] == JsonUnparse.Digits(-n);
    } else if n > 0 {
      LeadingDigit(n);
    }
  }

  // ---- strings

  /** The bytes that stand for themselves. */
  predicate IsOrdinary(b: byte) {
    b as int >= ' ' as int && b as int != '"' as int && b as int != '\\' as int
  }

  predicate HasLetter(b: byte, k: int) {
    0 <= k < 7 && MEANINGS[k] == b
  }

  /** How a byte is written: as it is, by a letter (the slash is none of them), or by four digits in small letters. */
  ghost predicate Writes(b: byte, t: seq<byte>) {
    if IsOrdinary(b) then t == [b]
    else if exists k :: HasLetter(b, k) then forall k :: HasLetter(b, k) ==> t == Of("\\") + [LETTERS[k] as int as byte]
    else b < 32 && t == Of("\\u00") + [SMALL_LETTERS[b / 16] as int as byte, SMALL_LETTERS[b % 16] as int as byte]
  }

  function Of(s: string): (t: seq<byte>)
    requires forall i :: 0 <= i < |s| ==> s[i] as int < 256
    ensures |t| == |s| && forall i :: 0 <= i < |s| ==> t[i] as int == s[i] as int
  {
    seq(|s|, i requires 0 <= i < |s| => s[i] as int as byte)
  }

  lemma ByteIsWritten(b: byte)
    ensures Writes(b, EscapeByte(b))
  {
    if IsOrdinary(b) {
    } else if exists k :: HasLetter(b, k) {
      forall k | HasLetter(b, k)
        ensures EscapeByte(b) == Of("\\") + [LETTERS[k] as int as byte]
      {
        assert k == 0 || k == 1 || k == 2 || k == 3 || k == 4 || k == 5 || k == 6;
      }
    } else {
      assert !HasLetter(b, 0) && !HasLetter(b, 1) && !HasLetter(b, 2) && !HasLetter(b, 3);
      assert !HasLetter(b, 4) && !HasLetter(b, 5) && !HasLetter(b, 6);
      SmallDigit(b / 16);
      SmallDigit(b % 16);
    }
  }

  lemma SmallDigit(d: byte)
    requires d < 16
    ensures LowerHex(d) as int == SMALL_LETTERS[d] as int
  {
    if d < 8 {
      assert d == 0 || d == 1 || d == 2 || d == 3 || d == 4 || d == 5 || d == 6 || d == 7;
    } else {
      assert d == 8 || d == 9 || d == 10 || d == 11 || d == 12 || d == 13 || d == 14 || d == 15;
    }
  }

  /** A string is what its bytes are written as, one after the other, between quotes. */
  ghost predicate AllWritten(s: seq<byte>, t: seq<byte>)
    decreases |s|
  {
    if s == [] then t == []
    else exists k: nat :: k <= |t| && Writes(s[0], t[..k]) && AllWritten(s[1..], t[k..])
  }

  lemma {:induction false} TextIsWritten(s: seq<byte>)
    ensures AllWritten(s, EscapeText(s))
    decreases |s|
  {
    hide Writes, EscapeByte;
    if s != [] {
      ByteIsWritten(s[0]);
      TextIsWritten(s[1..]);
      var k, t := |EscapeByte(s[0])|, EscapeText(s);
      assert t[..k] == EscapeByte(s[0]) && t[k..] == EscapeText(s[1..]);
    }
  }

  lemma StringIsWritten(s: seq<byte>)
    ensures var t := Quoted(s);
            |t| >= 2 && t[0] as int == '"' as int && t[|t| - 1] as int == '"' as int && AllWritten(s, t[1..|t| - 1])
  {
    hide EscapeText;
    TextIsWritten(s);
    assert Quoted(s)[1..|Quoted(s)| - 1] == EscapeText(s);
  }

  // ---- arrays and objects

  function Joined(parts: seq<seq<byte>>, separator: seq<byte>): seq<byte> {
    if parts == [] then []
    else if |parts| == 1 then parts[0]
    else parts[0] + separator + Joined(parts[1..], separator)
  }

  function Prints(items: seq<Json>, format: bool, depth: nat): (parts: seq<seq<byte>>)
    requires PrintableItems(items)
    ensures |parts| == |items|
  {
    if items == [] then [] else [Unparse(items[0], format, depth)] + Prints(items[1..], format, depth)
  }

  /** One member to a line, behind as many tabs as it is deep, with a tab behind the colon; or nothing of that. */
  function MemberPrints(members: seq<Member>, format: bool, depth: nat): (parts: seq<seq<byte>>)
    requires PrintableMembers(members)
    ensures |parts| == |members|
  {
    if members == [] then []
    else
      var m := members[0];
      var line :=
        (if format then Tabs(depth) else []) + Quoted(m.key) + Of(if format then ":\t" else ":")
        + Unparse(m.value, format, depth);
      [line] + MemberPrints(members[1..], format, depth)
  }

  function Tabs(n: nat): (t: seq<byte>)
    ensures |t| == n && forall i :: 0 <= i < n ==> t[i] as int == '\t' as int
  {
    seq(n, _ => '\t' as int as byte)
  }

  lemma {:induction false} ItemsAreJoined(items: seq<Json>, format: bool, depth: nat)
    requires PrintableItems(items)
    ensures UnparseItems(items, format, depth) == Joined(Prints(items, format, depth), Of(if format then ", " else ","))
    decreases |items|
  {
    hide Unparse;
    var separator := Of(if format then ", " else ",");
    assert separator == [COMMA] + Layout(format, SPACE);
    if items != [] {
      ItemsAreJoined(items[1..], format, depth);
      assert Prints(items, format, depth)[1..] == Prints(items[1..], format, depth);
    }
  }

  lemma ArrayIsPrinted(items: seq<Json>, format: bool, depth: nat)
    requires PrintableItems(items)
    ensures Unparse(Array(items), format, depth)
         == Of("[") + Joined(Prints(items, format, depth + 1), Of(if format then ", " else ",")) + Of("]")
  {
    hide UnparseItems, Joined, Prints;
    ItemsAreJoined(items, format, depth + 1);
    assert Of("[") == [LBRACKET] && Of("]") == [RBRACKET];
  }

  lemma {:induction false} MembersAreJoined(members: seq<Member>, format: bool, depth: nat)
    requires PrintableMembers(members) && members != []
    ensures UnparseMembers(members, format, depth)
         == Joined(MemberPrints(members, format, depth), Of(if format then ",\n" else ","))
            + Of(if format then "\n" else "")
    decreases |members|
  {
    hide Unparse, Quoted;
    var separator, end := Of(if format then ",\n" else ","), Of(if format then "\n" else "");
    assert separator == [COMMA] + Layout(format, LINE_FEED) && end == Layout(format, LINE_FEED);
    var parts := MemberPrints(members, format, depth);
    MemberLine(members[0], format, depth);
    if |members| > 1 {
      MembersAreJoined(members[1..], format, depth);
      assert parts[1..] == MemberPrints(members[1..], format, depth);
      Associative(parts[0] + separator, Joined(parts[1..], separator), end);
    }
  }

  lemma MemberLine(m: Member, format: bool, depth: nat)
    requires NulFree(m.key) && Printable(m.value)
    ensures UnparseMember(m, format, depth)
         == (if format then Tabs(depth) else []) + Quoted(m.key) + Of(if format then ":\t" else ":")
            + Unparse(m.value, format, depth)
  {
    hide Unparse, Quoted;
    assert Of(if format then ":\t" else ":") == [COLON] + Layout(format, TAB);
    assert Indent(format, depth) == if format then Tabs(depth) else [];
  }

  lemma ObjectIsPrinted(members: seq<Member>, format: bool, depth: nat)
    requires PrintableMembers(members)
    ensures var end := Of(if format then "\n" else "");
            var closing := (if format then Tabs(depth) else []) + Of("}");
            Unparse(Object(members), format, depth)
            == Of("{") + end
               + (if members == [] then []
                  else Joined(MemberPrints(members, format, depth + 1), Of(if format then ",\n" else ",")) + end)
               + closing
  {
    hide UnparseMembers, Joined, MemberPrints;
    if members == [] {
      NoMembersPrinted(format, depth + 1);
    } else {
      MembersAreJoined(members, format, depth + 1);
    }
    assert Of("{") == [LBRACE] && Of("}") == [RBRACE];
    assert Of(if format then "\n" else "") == Layout(format, LINE_FEED);
    assert Indent(format, depth) == if format then Tabs(depth) else [];
  }

  lemma NoMembersPrinted(format: bool, depth: nat)
    ensures UnparseMembers([], format, depth) == []
  {
  }

  lemma WordsArePrinted(format: bool, depth: nat)
    ensures Unparse(Null, format, depth) == Of("null")
    ensures Unparse(False, format, depth) == Of("false") && Unparse(True, format, depth) == Of("true")
  {
  }
}
