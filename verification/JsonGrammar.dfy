/** Which texts the parser accepts, and as which values: a grammar on the characters of the text. */
module JsonGrammar {
  import opened JsonText
  import opened JsonValue
  import opened JsonParse
  import JsonNesting
  import opened JsonRoundTrip

  predicate Is(c: seq<byte>, p: nat, ch: char) {
    p < |c| && c[p] as int == ch as int
  }

  predicate Word(c: seq<byte>, p: nat, q: nat, word: string) {
    q == p + |word| <= |c| && forall i :: 0 <= i < |word| ==> c[p + i] as int == word[i] as int
  }

  /** White space: control characters and spaces. */
  predicate Blank(c: seq<byte>, p: nat, q: nat) {
    p <= q <= |c| && forall i :: p <= i < q ==> c[i] as int <= ' ' as int
  }

  predicate Digit(c: seq<byte>, p: nat) {
    p < |c| && '0' as int <= c[p] as int <= '9' as int
  }

  /** From p to q the text is the value. Strings and numbers are what `ParseString` and `ParseNumber` take. */
  ghost predicate ValueAt(c: seq<byte>, p: nat, q: nat, v: Json)
    decreases v, 0
  {
    match v
    case Null => Word(c, p, q, "null")
    case False => Word(c, p, q, "false")
    case True => Word(c, p, q, "true")
    case Number(_) => (Is(c, p, '-') || Digit(c, p)) && ParseNumber(c, p) == Parsed(v, q)
    case String(_) => Is(c, p, '"') && ParseString(c, p) == Parsed(v, q)
    case Array(items) =>
      p + 2 <= q && Is(c, p, '[') && Is(c, q - 1, ']')
      && if items == [] then Blank(c, p + 1, q - 1) else ItemsAt(c, p + 1, q - 1, items)
    case Object(members) =>
      p + 2 <= q && Is(c, p, '{') && Is(c, q - 1, '}')
      && if members == [] then Blank(c, p + 1, q - 1) else MembersAt(c, p + 1, q - 1, members)
  }

  /** Values with commas between them, and white space around each. */
  ghost predicate ItemsAt(c: seq<byte>, p: nat, q: nat, items: seq<Json>)
    requires items != []
    decreases items, 1
  {
    exists a: nat, b: nat, e: nat :: ItemAt(c, p, a, b, e, items) && if |items| == 1 then e == q else
      Is(c, e, ',') && ItemsAt(c, e + 1, q, items[1..])
  }

  ghost predicate ItemAt(c: seq<byte>, p: nat, a: nat, b: nat, e: nat, items: seq<Json>)
    requires items != []
    decreases items, 0
  {
    Blank(c, p, a) && ValueAt(c, a, b, items[0]) && Blank(c, b, e)
  }

  /** Keys and values with a colon between them, and commas between members. */
  ghost predicate MembersAt(c: seq<byte>, p: nat, q: nat, members: seq<Member>)
    requires members != []
    decreases members, 1
  {
    exists k: nat, m: nat, a: nat, b: nat, e: nat ::
      MemberAt(c, p, k, m, a, b, e, members) && if |members| == 1 then e == q else
      Is(c, e, ',') && MembersAt(c, e + 1, q, members[1..])
  }

  ghost predicate MemberAt(c: seq<byte>, p: nat, k: nat, m: nat, a: nat, b: nat, e: nat, members: seq<Member>)
    requires members != []
    decreases members, 0
  {
    Blank(c, p, k) && Is(c, k, '"') && Is(c, m, ':') && Blank(c, m + 1, a)
    && (exists l: nat :: ParseString(c, k) == Parsed(String(members[0].key), l) && Blank(c, l, m))
    && ValueAt(c, a, b, members[0].value) && Blank(c, b, e)
  }

  // ---- white space and words

  lemma SkipsTo(c: seq<byte>, p: nat, a: nat)
    requires Blank(c, p, a) && a < |c| && c[a] > SPACE
    ensures Skip(c, p) == a
  {
  }

  lemma SkipsBlank(c: seq<byte>, p: nat)
    requires p <= |c|
    ensures Blank(c, p, Skip(c, p))
  {
  }

  lemma WordIsAt(c: seq<byte>, p: nat, word: string, t: seq<byte>)
    requires |word| == |t| && forall i :: 0 <= i < |t| ==> t[i] as int == word[i] as int
    ensures At(c, p, t) <==> Word(c, p, p + |t|, word)
  {
    if Word(c, p, p + |t|, word) {
      assert c[p..p + |t|] == t;
    }
    if At(c, p, t) {
      forall i | 0 <= i < |t|
        ensures c[p + i] as int == word[i] as int
      {
        AtIndex(c, p, t, i);
      }
    }
  }

  lemma Words(c: seq<byte>, p: nat)
    ensures At(c, p, NULL_WORD) <==> Word(c, p, p + 4, "null")
    ensures At(c, p, FALSE_WORD) <==> Word(c, p, p + 5, "false")
    ensures At(c, p, TRUE_WORD) <==> Word(c, p, p + 4, "true")
  {
    hide Word, At;
    WordIsAt(c, p, "null", NULL_WORD);
    WordIsAt(c, p, "false", FALSE_WORD);
    WordIsAt(c, p, "true", TRUE_WORD);
  }

  // ---- what the grammar says is read

  lemma WordFirst(c: seq<byte>, p: nat, q: nat, word: string)
    requires Word(c, p, q, word) && word != ""
    ensures p < q == p + |word| <= |c| && c[p] as int == word[0] as int
  {
    var first := word[0];
  }

  lemma FirstOf(c: seq<byte>, p: nat, q: nat, v: Json)
    requires ValueAt(c, p, q, v)
    ensures p < q <= |c| && c[p] > SPACE && c[p] != RBRACKET && c[p] != RBRACE
    ensures v.Null? ==> q == p + 4
    ensures v.False? ==> q == p + 5 && !At(c, p, NULL_WORD)
    ensures v.True? ==> q == p + 4 && !At(c, p, NULL_WORD) && !At(c, p, FALSE_WORD)
    ensures !v.Null? && !v.False? && !v.True? ==>
              !At(c, p, NULL_WORD) && !At(c, p, FALSE_WORD) && !At(c, p, TRUE_WORD)
  {
    hide ItemsAt, MembersAt, ParseString, ParseNumber, At, Word;
    match v {
      case Null => WordFirst(c, p, q, "null");
      case False => WordFirst(c, p, q, "false");
      case True => WordFirst(c, p, q, "true");
      case _ =>
    }
    OtherWords(c, p);
  }

  lemma {:induction false} IsRead(c: seq<byte>, p: nat, q: nat, v: Json, depth: nat)
    requires ValueAt(c, p, q, v) && depth <= 1000 && Fits(v, 1000 - depth)
    ensures p < q <= |c| && ParseValue(c, p, depth) == Parsed(v, q)
    decreases v, 0
  {
    hide At, Word, ItemsAt, MembersAt, ParseString, ParseNumber, ParseItems, ParseMembers, Skip;
    FirstOf(c, p, q, v);
    Words(c, p);
    match v {
      case Array(items) =>
        if items == [] {
          SkipsTo(c, p + 1, q - 1);
        } else {
          ItemsAreRead(c, p + 1, q - 1, items, depth + 1);
        }
      case Object(members) =>
        if members == [] {
          SkipsTo(c, p + 1, q - 1);
        } else {
          MembersAreRead(c, p + 1, q - 1, members, depth + 1);
        }
      case _ =>
    }
  }

  /** The list up to the closing bracket at q. */
  lemma {:induction false} ItemsAreRead(c: seq<byte>, p: nat, q: nat, items: seq<Json>, depth: nat)
    requires items != [] && ItemsAt(c, p, q, items) && Is(c, q, ']') && depth <= 1000 && ItemsFit(items, 1000 - depth)
    ensures p <= |c| && Skip(c, p) < |c| && c[Skip(c, p)] != RBRACKET
    ensures ParseItems(c, Skip(c, p), depth) == Items(items, q + 1)
    decreases items, 1
  {
    hide Skip, ParseValue, ValueAt;
    var a: nat, b: nat, e: nat :| ItemAt(c, p, a, b, e, items)
      && if |items| == 1 then e == q else Is(c, e, ',') && ItemsAt(c, e + 1, q, items[1..]);
    FirstOf(c, a, b, items[0]);
    IsRead(c, a, b, items[0], depth);
    SkipsTo(c, p, a);
    SkipsTo(c, b, e);
    if |items| > 1 {
      ItemsAreRead(c, e + 1, q, items[1..], depth);
    }
    HeadAndTail(items);
  }

  /** One member, from its key at k to the end of its value at b. */
  lemma {:induction false} MemberIsRead(
      c: seq<byte>, p: nat, k: nat, m: nat, a: nat, b: nat, e: nat, members: seq<Member>, depth: nat)
    requires members != [] && MemberAt(c, p, k, m, a, b, e, members)
    requires depth <= 1000 && Fits(members[0].value, 1000 - depth)
    ensures k < |c| && c[k] == QUOTE && ParseMember(c, k, depth) == OneMember(members[0], b)
    ensures Blank(c, p, k) && Blank(c, b, e)
    decreases members, 0
  {
    hide Skip, ParseValue, ValueAt, ParseString, Blank;
    var l: nat :| ParseString(c, k) == Parsed(String(members[0].key), l) && Blank(c, l, m);
    FirstOf(c, a, b, members[0].value);
    IsRead(c, a, b, members[0].value, depth);
    SkipsTo(c, l, m);
    SkipsTo(c, m + 1, a);
  }

  lemma {:induction false} MembersAreRead(c: seq<byte>, p: nat, q: nat, members: seq<Member>, depth: nat)
    requires members != [] && MembersAt(c, p, q, members) && Is(c, q, '}')
    requires depth <= 1000 && MembersFit(members, 1000 - depth)
    ensures p <= |c| && Skip(c, p) < |c| && c[Skip(c, p)] != RBRACE
    ensures ParseMembers(c, Skip(c, p), depth) == Members(members, q + 1)
    decreases members, 1
  {
    hide Skip, ParseMember, MemberAt;
    var k: nat, m: nat, a: nat, b: nat, e: nat :| MemberAt(c, p, k, m, a, b, e, members)
      && if |members| == 1 then e == q else Is(c, e, ',') && MembersAt(c, e + 1, q, members[1..]);
    MemberIsRead(c, p, k, m, a, b, e, members, depth);
    SkipsTo(c, p, k);
    SkipsTo(c, b, e);
    if |members| > 1 {
      MembersAreRead(c, e + 1, q, members[1..], depth);
    }
    HeadAndTail(members);
  }

  // ---- what is read is in the grammar

  lemma {:induction false} IsInGrammar(c: seq<byte>, p: nat, depth: nat)
    requires p <= |c| && ParseValue(c, p, depth).Parsed?
    ensures ValueAt(c, p, ParseValue(c, p, depth).pos, ParseValue(c, p, depth).value)
    decreases |c| - p, 1
  {
    hide At, Word, ItemsAt, MembersAt, ParseString, ParseNumber, ParseItems, ParseMembers, Skip;
    Words(c, p);
    var v := ParseValue(c, p, depth).value;
    KindOfText(c, p, depth);
    if p < |c| && (c[p] == LBRACKET || c[p] == LBRACE) {
      OtherWords(c, p);
      SkipsBlank(c, p + 1);
      if v.Array? && v.items != [] {
        ItemsAreInGrammar(c, p + 1, Skip(c, p + 1), depth + 1);
      } else if v.Object? && v.members != [] {
        MembersAreInGrammar(c, p + 1, Skip(c, p + 1), depth + 1);
      }
    }
  }

  lemma KindOfText(c: seq<byte>, p: nat, depth: nat)
    requires p < |c| && ParseValue(c, p, depth).Parsed?
    ensures c[p] == QUOTE ==> ParseValue(c, p, depth).value.String?
    ensures c[p] == MINUS || IsDigit(c[p]) ==> ParseValue(c, p, depth).value.Number?
  {
    OtherWords(c, p);
  }

  lemma {:induction false} ItemsAreInGrammar(c: seq<byte>, from: nat, p: nat, depth: nat)
    requires Blank(c, from, p) && ParseItems(c, p, depth).Items?
    ensures var r := ParseItems(c, p, depth); Is(c, r.pos - 1, ']') && ItemsAt(c, from, r.pos - 1, r.items)
    decreases |c| - p, 2
  {
    hide Skip, ParseValue, ValueAt;
    var r, first := ParseItems(c, p, depth), ParseValue(c, p, depth);
    IsInGrammar(c, p, depth);
    var e := Skip(c, first.pos);
    SkipsBlank(c, first.pos);
    assert ItemAt(c, from, p, first.pos, e, r.items);
    if c[e] == COMMA {
      SkipsBlank(c, e + 1);
      ItemsAreInGrammar(c, e + 1, Skip(c, e + 1), depth);
      assert r.items[1..] == ParseItems(c, Skip(c, e + 1), depth).items;
    }
  }

  lemma {:induction false} MemberIsInGrammar(c: seq<byte>, from: nat, p: nat, depth: nat, members: seq<Member>)
    returns (m: nat, a: nat)
    requires Blank(c, from, p) && p < |c| && ParseMember(c, p, depth).OneMember?
    requires members != [] && members[0] == ParseMember(c, p, depth).member
    ensures var b := ParseMember(c, p, depth).pos; MemberAt(c, from, p, m, a, b, Skip(c, b), members)
    decreases |c| - p, 2
  {
    hide Skip, ParseValue, ValueAt, ParseString, Blank;
    var key := ParseString(c, p);
    m := Skip(c, key.pos);
    a := Skip(c, m + 1);
    QuoteFirst(c, p);
    SkipsBlank(c, key.pos);
    SkipsBlank(c, m + 1);
    IsInGrammar(c, a, depth);
    SkipsBlank(c, ParseMember(c, p, depth).pos);
  }

  lemma {:induction false} MembersAreInGrammar(c: seq<byte>, from: nat, p: nat, depth: nat)
    requires Blank(c, from, p) && ParseMembers(c, p, depth).Members?
    ensures var r := ParseMembers(c, p, depth); Is(c, r.pos - 1, '}') && MembersAt(c, from, r.pos - 1, r.members)
    decreases |c| - p, 3
  {
    hide Skip, ParseMember, MemberAt, Blank;
    var r, first := ParseMembers(c, p, depth), ParseMember(c, p, depth);
    var m, a := MemberIsInGrammar(c, from, p, depth, r.members);
    var e := Skip(c, first.pos);
    if c[e] == COMMA {
      SkipsBlank(c, e + 1);
      MembersAreInGrammar(c, e + 1, Skip(c, e + 1), depth);
      assert r.members[1..] == ParseMembers(c, Skip(c, e + 1), depth).members;
    }
  }

  lemma QuoteFirst(c: seq<byte>, p: nat)
    requires p < |c| && ParseString(c, p).Parsed?
    ensures Is(c, p, '"') && ParseString(c, p).value.String?
  {
  }

  // ---- the law

  /** Anywhere, a value is read up to q exactly if the text is that value and it is not nested too deep. */
  lemma ReadIff(c: seq<byte>, p: nat, q: nat, v: Json, depth: nat)
    requires p <= |c| && depth <= 1000
    ensures ParseValue(c, p, depth) == Parsed(v, q) <==> ValueAt(c, p, q, v) && Fits(v, 1000 - depth)
  {
    hide ParseValue, ValueAt, Fits;
    if ParseValue(c, p, depth) == Parsed(v, q) {
      IsInGrammar(c, p, depth);
      JsonNesting.ParsedFits(c, p, depth);
    }
    if ValueAt(c, p, q, v) && Fits(v, 1000 - depth) {
      IsRead(c, p, q, v, depth);
    }
  }

  /** A UTF-8 byte order mark at the start is skipped, if two more bytes follow it. */
  function Start(c: seq<byte>): nat {
    if |c| > 4 && c[0] == 0xEF && c[1] == 0xBB && c[2] == 0xBF then 3 else 0
  }

  /** White space, the value, white space and the end of the text. */
  ghost predicate IsText(t: seq<byte>, v: Json) {
    exists a: nat, b: nat :: WholeText(t + [0], Start(t + [0]), a, b, v)
  }

  ghost predicate WholeText(c: seq<byte>, start: nat, a: nat, b: nat, v: Json) {
    Blank(c, start, a) && ValueAt(c, a, b, v) && Blank(c, b, |c|)
  }

  /**
   * A C string that has to be consumed whole is accepted exactly if it is the text of a value nested at most 1000
   * deep, and it is read as that value.
   */
  lemma AcceptedIff(t: seq<byte>, v: Json)
    requires NulFree(t)
    ensures var c := t + [NUL];
            var r := Parse(c);
            (r.Parsed? && r.value == v && r.pos < |c| && c[Skip(c, r.pos)] == NUL) <==> IsText(t, v) && Fits(v, 1000)
  {
    hide ParseValue, ValueAt, Skip, Blank, Fits;
    var c := t + [NUL];
    var r, start := Parse(c), Start(c);
    var p := Skip(c, start);
    if r.Parsed? && r.value == v && r.pos < |c| && c[Skip(c, r.pos)] == NUL {
      SkipsBlank(c, start);
      ReadIff(c, p, r.pos, v, 0);
      BlankToEnd(c, r.pos);
      assert WholeText(c, start, p, r.pos, v);
    }
    if IsText(t, v) && Fits(v, 1000) {
      var a: nat, b: nat :| WholeText(c, start, a, b, v);
      FirstOf(c, a, b, v);
      SkipsTo(c, start, a);
      ReadIff(c, a, b, v, 0);
      EndsBeforeNul(c, a, b, v);
      BlankAtEnd(c, b);
    }
  }

  /** In a C string, only the terminating NUL is one, and what is blank up to it is skipped up to it. */
  lemma BlankToEnd(c: seq<byte>, p: nat)
    requires p < |c| && (forall i :: 0 <= i < |c| - 1 ==> c[i] != NUL) && c[Skip(c, p)] == NUL
    ensures Blank(c, p, |c|)
  {
  }

  lemma BlankAtEnd(c: seq<byte>, p: nat)
    requires p < |c| && Blank(c, p, |c|)
    ensures Skip(c, p) == |c| - 1
  {
  }

  lemma EndsBeforeNul(c: seq<byte>, p: nat, q: nat, v: Json)
    requires ValueAt(c, p, q, v) && c != [] && c[|c| - 1] == NUL
    ensures q < |c|
  {
    hide ItemsAt, MembersAt, ParseNumber, ParseString, Word;
    match v {
      case Null => WordEnds(c, p, q, "null");
      case False => WordEnds(c, p, q, "false");
      case True => WordEnds(c, p, q, "true");
      case Number(_) => NumberEnds(c, p);
      case String(_) => StringEnds(c, p);
      case _ =>
    }
  }

  lemma WordEnds(c: seq<byte>, p: nat, q: nat, word: string)
    requires Word(c, p, q, word) && word != "" && word[|word| - 1] != '\0' && c[|c| - 1] == NUL
    ensures q < |c|
  {
    var last := word[|word| - 1];
    assert c[p + (|word| - 1)] as int == last as int;
  }

  lemma NumberEnds(c: seq<byte>, p: nat)
    requires p < |c| && c[|c| - 1] == NUL && ParseNumber(c, p).Parsed?
    ensures ParseNumber(c, p).pos < |c|
  {
    hide Strtod, NumberRun;
    var t := NumberRun(c, p, NUMBER_BUFFER);
    if |t| > 0 {
      AtIndex(c, p, t, |t| - 1);
    }
  }

  lemma StringEnds(c: seq<byte>, p: nat)
    requires p < |c| && c[|c| - 1] == NUL && ParseString(c, p).Parsed?
    ensures ParseString(c, p).pos < |c|
  {
    hide Unescape;
  }

  // ---- where errors are reported

  /** A wrong byte behind the first item of an array, or behind the first key or value of an object. */
  lemma WrongByte(c: seq<byte>, p: nat, a: nat, b: nat, e: nat, v: Json, depth: nat)
    requires depth < 1000 && Is(c, p, '[') && Blank(c, p + 1, a) && ValueAt(c, a, b, v) && Fits(v, 999 - depth)
    requires Blank(c, b, e) && e < |c| && c[e] as int > ' ' as int && !Is(c, e, ',') && !Is(c, e, ']')
    ensures ParseValue(c, p, depth) == Failed(e)
  {
    hide Skip, At, ValueAt, ParseValue, ParseItems;
    FirstOf(c, a, b, v);
    SkipsTo(c, p + 1, a);
    IsRead(c, a, b, v, depth + 1);
    SkipsTo(c, b, e);
    ItemsBreak(c, a, depth + 1);
    ArrayBreaks(c, p, depth);
  }

  lemma ItemsBreak(c: seq<byte>, a: nat, depth: nat)
    requires a <= |c|
    ensures var first := ParseValue(c, a, depth);
            if first.Failed? then ParseItems(c, a, depth) == NoItems(first.pos)
            else
              var e := Skip(c, first.pos);
              e < |c| && c[e] != COMMA && c[e] != RBRACKET ==> ParseItems(c, a, depth) == NoItems(e)
  {
    hide Skip, ParseValue;
  }

  lemma ArrayBreaks(c: seq<byte>, p: nat, depth: nat)
    requires p < |c| && c[p] == LBRACKET && depth < 1000
    ensures var a := Skip(c, p + 1);
            a < |c| && c[a] != RBRACKET && ParseItems(c, a, depth + 1).NoItems? ==>
              ParseValue(c, p, depth) == Failed(ParseItems(c, a, depth + 1).pos)
  {
    hide Skip, ParseItems;
    OtherWords(c, p);
    assert ParseValue(c, p, depth) == ParseArray(c, p, depth);
  }

  lemma ObjectBreaks(c: seq<byte>, p: nat, depth: nat)
    requires p < |c| && c[p] == LBRACE && depth < 1000
    ensures var k := Skip(c, p + 1);
            k < |c| && c[k] != RBRACE && ParseMember(c, k, depth + 1).NoMember? ==>
              ParseValue(c, p, depth) == Failed(ParseMember(c, k, depth + 1).pos)
  {
    hide Skip, ParseMember;
    OtherWords(c, p);
    assert ParseValue(c, p, depth) == ParseObject(c, p, depth);
  }

  lemma NoColon(c: seq<byte>, p: nat, k: nat, l: nat, e: nat, depth: nat)
    requires depth < 1000 && Is(c, p, '{') && Blank(c, p + 1, k) && Is(c, k, '"')
    requires ParseString(c, k).Parsed? && ParseString(c, k).pos == l
    requires Blank(c, l, e) && e < |c| && c[e] as int > ' ' as int && !Is(c, e, ':')
    ensures ParseValue(c, p, depth) == Failed(e)
  {
    hide Skip, At, ParseString, ParseValue;
    SkipsTo(c, p + 1, k);
    SkipsTo(c, l, e);
    assert ParseMember(c, k, depth + 1) == NoMember(e);
    ObjectBreaks(c, p, depth);
  }

  /** An error in the first item is the array's, and where no value can start is where the error is. */
  lemma ErrorInside(c: seq<byte>, p: nat, a: nat, depth: nat)
    requires depth < 1000 && Is(c, p, '[')
    requires Blank(c, p + 1, a) && a < |c| && c[a] as int > ' ' as int && !Is(c, a, ']')
    requires ParseValue(c, a, depth + 1).Failed?
    ensures ParseValue(c, p, depth) == ParseValue(c, a, depth + 1)
  {
    hide Skip, At, ParseValue, ParseItems;
    SkipsTo(c, p + 1, a);
    ItemsBreak(c, a, depth + 1);
    ArrayBreaks(c, p, depth);
  }

  lemma NoValue(c: seq<byte>, p: nat, depth: nat)
    requires p < |c| && !Digit(c, p) && !Is(c, p, '-') && !Is(c, p, '"') && !Is(c, p, '[') && !Is(c, p, '{')
    requires !Word(c, p, p + 4, "null") && !Word(c, p, p + 5, "false") && !Word(c, p, p + 4, "true")
    ensures ParseValue(c, p, depth) == Failed(p)
  {
    hide At, Word;
    Words(c, p);
  }
}
