/** Minifying twice changes nothing more; and when minifying undoes formatting. */
module JsonMinifyLaws {
  import opened JsonText
  import opened JsonValue
  import opened JsonUnparse
  import opened JsonMinify
  import RoundTrip = JsonRoundTrip

  // ---- idempotence

  /** Inside a string literal the first byte always comes through. */
  lemma StringKeepsFirst(s: seq<byte>)
    ensures s == [] ==> Minified(s, true) == []
    ensures s != [] ==> Minified(s, true) != [] && Minified(s, true)[0] == s[0]
  {
  }

  lemma {:induction false} Idempotent(s: seq<byte>, inString: bool)
    ensures Minified(Minified(s, inString), inString) == Minified(s, inString)
    decreases |s|
  {
    if s == [] {
    } else if inString {
      if s[0] == QUOTE {
        Idempotent(s[1..], false);
        MinifiedCons(QUOTE, Minified(s[1..], false), true);
      } else if s[0] == BACKSLASH && |s| > 1 && s[1] == QUOTE {
        Idempotent(s[2..], true);
        var rest := Minified(s[2..], true);
        var m := [BACKSLASH, QUOTE] + rest;
        assert m[2..] == rest;
      } else {
        Idempotent(s[1..], true);
        StringKeepsFirst(s[1..]);
        MinifiedCons(s[0], Minified(s[1..], true), true);
      }
    } else if IsBlank(s[0]) {
      Idempotent(s[1..], false);
    } else if s[0] == SLASH {
      if |s| > 1 && s[1] == SLASH {
        Idempotent(AfterLine(s[2..]), false);
      } else if |s| > 1 && s[1] == STAR {
        Idempotent(AfterBlock(s[2..]), false);
      } else {
        Idempotent(s[1..], false);
      }
    } else {
      Idempotent(s[1..], s[0] == QUOTE);
      MinifiedCons(s[0], Minified(s[1..], s[0] == QUOTE), false);
    }
  }

  /** One byte that is kept, in front of a rest. */
  lemma MinifiedCons(b: byte, rest: seq<byte>, inString: bool)
    ensures inString && b == QUOTE ==> Minified([b] + rest, true) == [b] + Minified(rest, false)
    ensures inString && b != QUOTE && !(b == BACKSLASH && rest != [] && rest[0] == QUOTE) ==>
              Minified([b] + rest, true) == [b] + Minified(rest, true)
    ensures !inString && !IsBlank(b) && b != SLASH ==>
              Minified([b] + rest, false) == [b] + Minified(rest, b == QUOTE)
    ensures !inString && IsBlank(b) ==> Minified([b] + rest, false) == Minified(rest, false)
  {
    var s := [b] + rest;
    assert s[1..] == rest;
  }

  // ---- formatted and unformatted text

  /** Bytes that minifying keeps and that do not open a string. */
  predicate Solid(t: seq<byte>) {
    forall i :: 0 <= i < |t| ==> !IsBlank(t[i]) && t[i] != SLASH && t[i] != QUOTE
  }

  lemma {:induction false} SolidStays(t: seq<byte>, r: seq<byte>)
    requires Solid(t)
    ensures Minified(t + r, false) == t + Minified(r, false)
    decreases |t|
  {
    if t == [] {
      assert t + r == r;
    } else {
      SolidStays(t[1..], r);
      assert t + r == [t[0]] + (t[1..] + r);
      MinifiedCons(t[0], t[1..] + r, false);
      assert t + Minified(r, false) == [t[0]] + (t[1..] + Minified(r, false));
    }
  }

  lemma {:induction false} BlanksGo(t: seq<byte>, r: seq<byte>)
    requires forall i :: 0 <= i < |t| ==> IsBlank(t[i])
    ensures Minified(t + r, false) == Minified(r, false)
    decreases |t|
  {
    if t == [] {
      assert t + r == r;
    } else {
      BlanksGo(t[1..], r);
      assert t + r == [t[0]] + (t[1..] + r);
      MinifiedCons(t[0], t[1..] + r, false);
    }
  }

  predicate EndsInBackslash(s: seq<byte>) {
    s != [] && s[|s| - 1] == BACKSLASH
  }

  /** In a string literal, escaped text stays, unless its last backslash hides the closing quote. */
  lemma {:induction false} EscapeTextStays(s: seq<byte>, r: seq<byte>)
    ensures Minified(EscapeText(s) + [QUOTE] + r, true)
         == EscapeText(s) + [QUOTE] + Minified(r, EndsInBackslash(s))
    decreases |s|
  {
    hide Minified, EscapeByte;
    if s == [] {
      assert EscapeText(s) == [];
      assert EscapeText(s) + [QUOTE] + r == [QUOTE] + r;
      MinifiedCons(QUOTE, r, true);
    } else if s == [BACKSLASH] {
      OneBackslash();
      LastBackslash(r);
      assert EscapeText(s) + [QUOTE] + r == [BACKSLASH] + ([BACKSLASH, QUOTE] + r);
      assert EscapeText(s) + [QUOTE] + Minified(r, true) == [BACKSLASH, BACKSLASH, QUOTE] + Minified(r, true);
    } else {
      var open := EndsInBackslash(s);
      assert open == EndsInBackslash(s[1..]);
      var rest := EscapeText(s[1..]) + [QUOTE] + r;
      EscapeTextStays(s[1..], r);
      if s[0] == BACKSLASH {
        NoQuoteFirst(s[1..], r);
      }
      EscapeByteStays(s[0], rest);
      AssociativeFour(EscapeByte(s[0]), EscapeText(s[1..]), [QUOTE], r);
      AssociativeFour(EscapeByte(s[0]), EscapeText(s[1..]), [QUOTE], Minified(r, open));
    }
  }

  lemma OneBackslash()
    ensures EscapeText([BACKSLASH]) == [BACKSLASH, BACKSLASH]
  {
    var s := [BACKSLASH];
    assert s[1..] == [] && EscapeText(s[1..]) == [];
  }

  lemma LastBackslash(r: seq<byte>)
    ensures Minified([BACKSLASH] + ([BACKSLASH, QUOTE] + r), true) == [BACKSLASH, BACKSLASH, QUOTE] + Minified(r, true)
  {
    var t := [BACKSLASH, QUOTE] + r;
    assert t[2..] == r;
    assert Minified(t, true) == [BACKSLASH, QUOTE] + Minified(r, true);
    MinifiedCons(BACKSLASH, t, true);
  }

  /** Escaped text that is not empty does not start with a quote. */
  lemma NoQuoteFirst(s: seq<byte>, r: seq<byte>)
    requires s != []
    ensures |EscapeText(s) + [QUOTE] + r| > 0 && (EscapeText(s) + [QUOTE] + r)[0] != QUOTE
  {
    assert (EscapeText(s) + [QUOTE] + r)[0] == EscapeByte(s[0])[0];
  }

  lemma EscapedQuoteStays(rest: seq<byte>)
    ensures Minified([BACKSLASH, QUOTE] + rest, true) == [BACKSLASH, QUOTE] + Minified(rest, true)
  {
    assert ([BACKSLASH, QUOTE] + rest)[2..] == rest;
  }

  lemma EscapeByteStays(b: byte, rest: seq<byte>)
    requires b == BACKSLASH ==> rest != [] && rest[0] != QUOTE
    ensures Minified(EscapeByte(b) + rest, true) == EscapeByte(b) + Minified(rest, true)
  {
    hide Minified;
    var e := EscapeByte(b);
    var m := Minified(rest, true);
    if b == QUOTE {
      EscapedQuoteStays(rest);
    } else if |e| == 1 {
      MinifiedCons(b, rest, true);
    } else if b == BACKSLASH {
      Associative([BACKSLASH], [BACKSLASH], rest);
      Associative([BACKSLASH], [BACKSLASH], m);
      assert [BACKSLASH] + [BACKSLASH] == e;
      MinifiedCons(BACKSLASH, rest, true);
      MinifiedCons(BACKSLASH, [BACKSLASH] + rest, true);
    } else {
      var t := e[1..];
      assert [BACKSLASH] + t == e;
      Associative([BACKSLASH], t, rest);
      Associative([BACKSLASH], t, m);
      PlainBytesStay(t, rest);
      MinifiedCons(BACKSLASH, t + rest, true);
    }
  }

  lemma {:induction false} PlainBytesStay(t: seq<byte>, rest: seq<byte>)
    requires forall i :: 0 <= i < |t| ==> t[i] != QUOTE && t[i] != BACKSLASH
    ensures Minified(t + rest, true) == t + Minified(rest, true)
    decreases |t|
  {
    if t == [] {
      assert t + rest == rest;
    } else {
      PlainBytesStay(t[1..], rest);
      assert t + rest == [t[0]] + (t[1..] + rest);
      MinifiedCons(t[0], t[1..] + rest, true);
      assert t + Minified(rest, true) == [t[0]] + (t[1..] + Minified(rest, true));
    }
  }

  /** A printed string comes through; afterwards the minifier is still inside it if it ends in a backslash. */
  lemma QuotedStays(s: seq<byte>, r: seq<byte>)
    ensures Minified(Quoted(s) + r, false) == Quoted(s) + Minified(r, EndsInBackslash(s))
  {
    hide EscapeText, Minified;
    EscapeTextStays(s, r);
    var t := EscapeText(s) + [QUOTE];
    assert Quoted(s) + r == [QUOTE] + (t + r);
    MinifiedCons(QUOTE, t + r, false);
    assert Quoted(s) + Minified(r, EndsInBackslash(s)) == [QUOTE] + (t + Minified(r, EndsInBackslash(s)));
  }

  /**
   * Clean: minifying undoes the formatting. Open: it does, but the minifier is left inside a string.
   * Broken: it is inside a string at some formatting, which therefore stays.
   */
  datatype Shape = Clean | Open | Broken

  function ShapeOf(v: Json): Shape
    decreases v, 1
  {
    match v
    case String(t) => if EndsInBackslash(t) then Open else Clean
    case Array(items) => ItemsShape(items)
    case Object(members) => MembersShape(members)
    case _ => Clean
  }

  /** Only the last element may leave the minifier inside a string. */
  function ItemsShape(items: seq<Json>): Shape
    decreases items, 0
  {
    if items == [] then Clean
    else if |items| == 1 then ShapeOf(items[0])
    else if ShapeOf(items[0]) == Clean then ItemsShape(items[1..])
    else Broken
  }

  /** No key and no value may: every member is followed by a line break. */
  function MembersShape(members: seq<Member>): Shape
    decreases members, 0
  {
    if members == [] then Clean
    else if !EndsInBackslash(members[0].key) && ShapeOf(members[0].value) == Clean then MembersShape(members[1..])
    else Broken
  }

  lemma {:induction false} MembersShapeIsNotOpen(members: seq<Member>)
    ensures MembersShape(members) != Open
    decreases |members|
  {
    hide ShapeOf, EndsInBackslash;
    if members != [] {
      MembersShapeIsNotOpen(members[1..]);
    }
  }

  // ---- prefixes

  lemma PrefixCancel(a: seq<byte>, x: seq<byte>, y: seq<byte>)
    ensures a + x <= a + y <==> x <= y
  {
    if a + x <= a + y {
      assert x == (a + x)[|a|..] && (a + y)[|a|..] == y;
    }
    if x <= y {
      assert y == x + y[|x|..];
    }
  }

  lemma PrefixShort(a: seq<byte>, x: seq<byte>, m: seq<byte>)
    requires !(a <= m)
    ensures !(a + x <= m)
  {
    if a + x <= m {
      PrefixOfPrefix(a, x, m);
    }
  }

  lemma PrefixOfPrefix(a: seq<byte>, x: seq<byte>, m: seq<byte>)
    requires a + x <= m
    ensures a <= m
  {
    assert a == m[..|a|];
  }

  /** What the minified print m is, for a value of this shape with the unformatted print u. */
  ghost predicate Outcome(shape: Shape, u: seq<byte>, m: seq<byte>, r: seq<byte>) {
    if shape == Broken then !(u <= m) else m == u + Minified(r, shape == Open)
  }

  /** A common beginning in front of an outcome. */
  lemma OutcomeAfter(a: seq<byte>, shape: Shape, u: seq<byte>, m: seq<byte>, r: seq<byte>)
    requires Outcome(shape, u, m, r)
    ensures Outcome(shape, a + u, a + m, r)
  {
    hide Minified;
    PrefixCancel(a, u, m);
    Associative(a, u, Minified(r, shape == Open));
  }

  /** Different first bytes break the outcome. */
  lemma OutcomeBroken(u: seq<byte>, m: seq<byte>, r: seq<byte>)
    requires u != [] && (m != [] ==> u[0] != m[0])
    ensures Outcome(Broken, u, m, r)
  {
    if u <= m {
      SameHead(u, m);
    }
  }

  lemma SameHead(u: seq<byte>, m: seq<byte>)
    requires u != [] && u <= m
    ensures m != [] && u[0] == m[0]
  {
  }

  // ---- values

  lemma {:induction false} DecimalSolid(n: int)
    ensures Solid(Decimal(n)) && Decimal(n) != []
  {
  }

  lemma FirstByteSolid(v: Json, format: bool, depth: nat)
    requires Printable(v)
    ensures Unparse(v, format, depth) != [] && Unparse(v, format, depth)[0] > SPACE
  {
  }

  lemma {:induction false} MinifyPrinted(v: Json, depth: nat, r: seq<byte>)
    requires Printable(v)
    ensures Outcome(ShapeOf(v), Unparse(v, false, depth), Minified(Unparse(v, true, depth) + r, false), r)
    decreases v, 1
  {
    hide Minified, Decimal, Quoted, UnparseItems, UnparseMembers, ItemsShape, MembersShape, EndsInBackslash;
    match v {
      case Null => SolidStays(NULL_WORD, r);
      case False => SolidStays(FALSE_WORD, r);
      case True => SolidStays(TRUE_WORD, r);
      case Number(n) =>
        DecimalSolid(ValueInt(n));
        SolidStays(Decimal(ValueInt(n)), r);
      case String(t) => QuotedStays(t, r);
      case Array(items) => MinifyArray(items, depth, r);
      case Object(members) => MinifyObject(members, depth, r);
    }
  }

  lemma {:induction false} MinifyArray(items: seq<Json>, depth: nat, r: seq<byte>)
    requires PrintableItems(items)
    ensures Outcome(ItemsShape(items), Unparse(Array(items), false, depth),
                    Minified(Unparse(Array(items), true, depth) + r, false), r)
    decreases items, 3
  {
    hide Minified, UnparseItems, ItemsShape;
    var f, u := UnparseItems(items, true, depth + 1), UnparseItems(items, false, depth + 1);
    var close := [RBRACKET] + r;
    MinifyItems(items, depth + 1, close);
    Bracket(r);
    ArrayParts(f, r);
    MinifiedCons(LBRACKET, f + close, false);
    CloseOutcome(ItemsShape(items), u, Minified(f + close, false), r);
    OutcomeAfter([LBRACKET], ItemsShape(items), u + [RBRACKET], Minified(f + close, false), r);
    Associative([LBRACKET], u, [RBRACKET]);
  }

  lemma ArrayParts(f: seq<byte>, r: seq<byte>)
    ensures [LBRACKET] + f + [RBRACKET] + r == [LBRACKET] + (f + ([RBRACKET] + r))
  {
  }

  /** A closing bracket comes through inside and outside strings. */
  lemma Bracket(r: seq<byte>)
    ensures Minified([RBRACKET] + r, false) == [RBRACKET] + Minified(r, false)
    ensures Minified([RBRACKET] + r, true) == [RBRACKET] + Minified(r, true)
  {
    MinifiedCons(RBRACKET, r, false);
    MinifiedCons(RBRACKET, r, true);
  }

  lemma CloseOutcome(shape: Shape, u: seq<byte>, m: seq<byte>, r: seq<byte>)
    requires Outcome(shape, u, m, [RBRACKET] + r)
    ensures Outcome(shape, u + [RBRACKET], m, r)
  {
    Bracket(r);
    if shape == Broken {
      PrefixShort(u, [RBRACKET], m);
    } else {
      Associative(u, [RBRACKET], Minified(r, shape == Open));
    }
  }

  lemma {:induction false} MinifyItems(items: seq<Json>, depth: nat, r: seq<byte>)
    requires PrintableItems(items)
    ensures Outcome(ItemsShape(items), UnparseItems(items, false, depth),
                    Minified(UnparseItems(items, true, depth) + r, false), r)
    decreases items, 2
  {
    hide Minified, Unparse, ShapeOf, Outcome;
    if items == [] {
      NothingPrinted(r);
    } else if |items| == 1 {
      MinifyPrinted(items[0], depth, r);
    } else {
      MinifyItems(items[1..], depth, r);
      MinifyPrinted(items[0], depth, [COMMA] + [SPACE] + UnparseItems(items[1..], true, depth) + r);
      RoundTrip.ItemsStart(items[1..], false, depth);
      assert [COMMA] + [] == [COMMA];
      MinifyFirstItem(ShapeOf(items[0]), ItemsShape(items[1..]),
                      Unparse(items[0], true, depth), Unparse(items[0], false, depth),
                      UnparseItems(items[1..], true, depth), UnparseItems(items[1..], false, depth), r);
    }
  }

  lemma NothingPrinted(r: seq<byte>)
    ensures Outcome(Clean, [], Minified([] + r, false), r)
  {
    assert [] + r == r;
  }

  /** An element, a comma and the other elements: formatted f, f', unformatted u, u'. */
  lemma MinifyFirstItem(
      shape: Shape, shape': Shape, f: seq<byte>, u: seq<byte>, f': seq<byte>, u': seq<byte>, r: seq<byte>)
    requires Outcome(shape, u, Minified(f + ([COMMA] + [SPACE] + f' + r), false), [COMMA] + [SPACE] + f' + r)
    requires Outcome(shape', u', Minified(f' + r, false), r)
    requires u' != [] && u'[0] > SPACE
    ensures Outcome(if shape == Clean then shape' else Broken,
                    u + [COMMA] + u', Minified(f + ([COMMA] + [SPACE]) + f' + r, false), r)
  {
    hide Minified, Outcome;
    var rest := f' + r;
    var next := [SPACE] + rest;
    assert [COMMA] + [SPACE] + f' + r == [COMMA] + next;
    assert f + ([COMMA] + [SPACE]) + f' + r == f + ([COMMA] + next);
    assert u + [COMMA] + u' == u + ([COMMA] + u');
    var m := Minified(f + ([COMMA] + next), false);
    MinifiedCons(SPACE, rest, shape == Open);
    MinifiedCons(COMMA, next, shape == Open);
    SeparatedOutcome(shape, shape', SPACE, u, u', m, next, rest, r);
  }

  /** A comma and a blank between what is printed first and what follows. */
  lemma SeparatedOutcome(
      shape: Shape, shape': Shape, blank: byte,
      u: seq<byte>, u': seq<byte>, m: seq<byte>, next: seq<byte>, rest: seq<byte>, r: seq<byte>)
    requires Outcome(shape, u, m, [COMMA] + next)
    requires Minified([COMMA] + next, shape == Open) == [COMMA] + Minified(next, shape == Open)
    requires shape == Open ==> Minified(next, true) == [blank] + Minified(rest, true)
    requires shape != Open ==> Minified(next, false) == Minified(rest, false)
    requires Outcome(shape', u', Minified(rest, false), r)
    requires u' != [] && u'[0] != blank
    ensures Outcome(if shape == Clean then shape' else Broken, u + ([COMMA] + u'), m, r)
  {
    hide Minified;
    if shape == Broken {
      PrefixShort(u, [COMMA] + u', m);
    } else if shape == Clean {
      OutcomeAfter([COMMA], shape', u', Minified(rest, false), r);
      OutcomeAfter(u, shape', [COMMA] + u', [COMMA] + Minified(rest, false), r);
    } else {
      OutcomeBroken(u', [blank] + Minified(rest, true), r);
      OutcomeAfter([COMMA], Broken, u', [blank] + Minified(rest, true), r);
      OutcomeAfter(u, Broken, [COMMA] + u', [COMMA] + ([blank] + Minified(rest, true)), r);
    }
  }

  // ---- objects

  /** Opening brace and line break in front of the members. */
  lemma {:induction false} MinifyObject(members: seq<Member>, depth: nat, r: seq<byte>)
    requires PrintableMembers(members)
    ensures Outcome(MembersShape(members), Unparse(Object(members), false, depth),
                    Minified(Unparse(Object(members), true, depth) + r, false), r)
    decreases members, 3
  {
    hide Minified, UnparseMembers, MembersShape;
    var f, u := UnparseMembers(members, true, depth + 1), UnparseMembers(members, false, depth + 1);
    var close := Closing(depth, r);
    MinifyMembers(members, depth + 1, r);
    ObjectParts(f, u, depth, r);
    MinifiedCons(LINE_FEED, f + close, false);
    MinifiedCons(LBRACE, [LINE_FEED] + (f + close), false);
    OutcomeAfter([LBRACE], MembersShape(members), u + [RBRACE], Minified(f + close, false), r);
  }

  /** The last line of a formatted object, and what follows it. */
  function Closing(depth: nat, r: seq<byte>): seq<byte> {
    Indent(true, depth) + ([RBRACE] + r)
  }

  lemma ObjectParts(f: seq<byte>, u: seq<byte>, depth: nat, r: seq<byte>)
    ensures [LBRACE] + Layout(true, LINE_FEED) + f + (Indent(true, depth) + [RBRACE]) + r
         == [LBRACE] + ([LINE_FEED] + (f + Closing(depth, r)))
    ensures [LBRACE] + Layout(false, LINE_FEED) + u + (Indent(false, depth) + [RBRACE]) == [LBRACE] + (u + [RBRACE])
  {
  }

  lemma MinifyClosing(depth: nat, r: seq<byte>)
    ensures Minified(Closing(depth, r), false) == [RBRACE] + Minified(r, false)
  {
    BlanksGo(Indent(true, depth), [RBRACE] + r);
    MinifiedCons(RBRACE, r, false);
  }

  lemma {:induction false} MinifyMembers(members: seq<Member>, depth: nat, r: seq<byte>)
    requires PrintableMembers(members) && depth > 0
    ensures Outcome(MembersShape(members), UnparseMembers(members, false, depth) + [RBRACE],
                    Minified(UnparseMembers(members, true, depth) + Closing(depth - 1, r), false), r)
    decreases members, 2
  {
    hide Minified, UnparseMember, ShapeOf, EndsInBackslash, Closing, Outcome;
    var close := Closing(depth - 1, r);
    if members == [] {
      MinifyClosing(depth - 1, r);
      NoMembers(close, r);
    } else {
      var m := members[0];
      var f', u' := UnparseMembers(members[1..], true, depth), UnparseMembers(members[1..], false, depth);
      var comma: seq<byte> := if |members| == 1 then [] else [COMMA];
      MinifyMembers(members[1..], depth, r);
      MinifyMember(m, depth, comma + ([LINE_FEED] + (f' + close)));
      MembersParts(UnparseMember(m, true, depth), UnparseMember(m, false, depth), comma, f', u', close);
      if |members| == 1 {
        MinifyLastMember(m, UnparseMember(m, false, depth), f' + close, u',
                         Minified(UnparseMember(m, true, depth) + (comma + ([LINE_FEED] + (f' + close))), false), r);
      } else {
        KeyFirst(members[1..], depth);
        MinifyNextMember(m, MembersShape(members[1..]), UnparseMember(m, false, depth), f' + close, u' + [RBRACE],
                         Minified(UnparseMember(m, true, depth) + (comma + ([LINE_FEED] + (f' + close))), false), r);
      }
    }
  }

  lemma NoMembers(close: seq<byte>, r: seq<byte>)
    requires Minified(close, false) == [RBRACE] + Minified(r, false)
    ensures Outcome(Clean, [] + [RBRACE], Minified([] + close, false), r)
  {
    assert [] + close == close;
    assert [] + [RBRACE] == [RBRACE];
  }

  lemma MembersParts(f: seq<byte>, u: seq<byte>, comma: seq<byte>, f': seq<byte>, u': seq<byte>, close: seq<byte>)
    ensures f + (comma + [LINE_FEED]) + f' + close == f + (comma + ([LINE_FEED] + (f' + close)))
    ensures u + (comma + []) + u' + [RBRACE] == u + (comma + (u' + [RBRACE]))
    ensures f + [LINE_FEED] + close == f + ([] + ([LINE_FEED] + ([] + close)))
    ensures u + [] + [RBRACE] == u + ([] + ([] + [RBRACE]))
  {
  }

  /** An unformatted member starts with the quote of its key. */
  lemma KeyFirst(members: seq<Member>, depth: nat)
    requires members != [] && PrintableMembers(members)
    ensures UnparseMembers(members, false, depth) != [] && UnparseMembers(members, false, depth)[0] == QUOTE
  {
    hide Unparse;
    var m := members[0];
    assert UnparseMember(m, false, depth)[0] == Quoted(m.key)[0] == QUOTE;
  }

  function MemberShape(m: Member): Shape {
    if EndsInBackslash(m.key) then Broken else ShapeOf(m.value)
  }

  lemma {:induction false} MinifyMember(m: Member, depth: nat, r: seq<byte>)
    requires NulFree(m.key) && Printable(m.value)
    ensures Outcome(
              MemberShape(m), UnparseMember(m, false, depth), Minified(UnparseMember(m, true, depth) + r, false), r)
    decreases m, 2
  {
    hide Minified, Unparse, Quoted, ShapeOf, EndsInBackslash, Outcome;
    var f, u := Unparse(m.value, true, depth), Unparse(m.value, false, depth);
    var next := [TAB] + (f + r);
    MinifyPrinted(m.value, depth, r);
    FirstByteSolid(m.value, false, depth);
    MemberParts(Indent(true, depth), Quoted(m.key), f, u, r);
    BlanksGo(Indent(true, depth), Quoted(m.key) + ([COLON] + next));
    QuotedStays(m.key, [COLON] + next);
    MinifiedCons(COLON, next, EndsInBackslash(m.key));
    MinifiedCons(TAB, f + r, EndsInBackslash(m.key));
    MemberOutcome(EndsInBackslash(m.key), ShapeOf(m.value), Quoted(m.key), u, next, f + r, r);
  }

  lemma MemberParts(indent: seq<byte>, key: seq<byte>, f: seq<byte>, u: seq<byte>, r: seq<byte>)
    ensures indent + key + ([COLON] + [TAB]) + f + r == indent + (key + ([COLON] + ([TAB] + (f + r))))
    ensures [] + key + ([COLON] + []) + u == key + ([COLON] + u)
  {
  }

  lemma MemberOutcome(
      open: bool, shape: Shape, key: seq<byte>, u: seq<byte>, next: seq<byte>, rest: seq<byte>, r: seq<byte>)
    requires Minified([COLON] + next, open) == [COLON] + Minified(next, open)
    requires Minified(next, open) == if open then [TAB] + Minified(rest, true) else Minified(rest, false)
    requires Outcome(shape, u, Minified(rest, false), r) && u != [] && u[0] > SPACE
    ensures Outcome(if open then Broken else shape, key + ([COLON] + u), key + Minified([COLON] + next, open), r)
  {
    hide Minified;
    if open {
      OutcomeBroken(u, [TAB] + Minified(rest, true), r);
      OutcomeAfter([COLON], Broken, u, Minified(next, open), r);
      OutcomeAfter(key, Broken, [COLON] + u, [COLON] + Minified(next, open), r);
    } else {
      OutcomeAfter([COLON], shape, u, Minified(next, open), r);
      OutcomeAfter(key, shape, [COLON] + u, [COLON] + Minified(next, open), r);
    }
  }

  /** A line break behind the last member, then what is left. */
  lemma MinifyLastMember(m: Member, u: seq<byte>, rest: seq<byte>, u': seq<byte>, out: seq<byte>, r: seq<byte>)
    requires Outcome(MemberShape(m), u, out, [] + ([LINE_FEED] + rest))
    requires Outcome(Clean, u' + [RBRACE], Minified(rest, false), r)
    requires u' == []
    ensures Outcome(if MemberShape(m) == Clean then Clean else Broken, u + ([] + (u' + [RBRACE])), out, r)
  {
    hide Minified;
    var shape := MemberShape(m);
    var x := [] + (u' + [RBRACE]);
    assert x == [RBRACE] == u' + [RBRACE];
    assert [] + ([LINE_FEED] + rest) == [LINE_FEED] + rest;
    MinifiedCons(LINE_FEED, rest, shape == Open);
    if shape == Broken {
      PrefixShort(u, x, out);
    } else if shape == Clean {
      OutcomeAfter(u, Clean, x, Minified(rest, false), r);
    } else {
      OutcomeBroken(x, [LINE_FEED] + Minified(rest, true), r);
      OutcomeAfter(u, Broken, x, [LINE_FEED] + Minified(rest, true), r);
    }
  }

  /** A comma and a line break behind a member, then the others. */
  lemma MinifyNextMember(
      m: Member, shape': Shape, u: seq<byte>, rest: seq<byte>, u': seq<byte>, out: seq<byte>, r: seq<byte>)
    requires Outcome(MemberShape(m), u, out, [COMMA] + ([LINE_FEED] + rest))
    requires Outcome(shape', u', Minified(rest, false), r)
    requires u' != [] && u'[0] == QUOTE
    ensures Outcome(if MemberShape(m) == Clean then shape' else Broken, u + ([COMMA] + u'), out, r)
  {
    hide Minified, Outcome;
    var shape := MemberShape(m);
    var next := [LINE_FEED] + rest;
    MinifiedCons(LINE_FEED, rest, shape == Open);
    MinifiedCons(COMMA, next, shape == Open);
    SeparatedOutcome(shape, shape', LINE_FEED, u, u', out, next, rest, r);
  }

  // ---- the law

  /**
   * Minifying the formatted print gives the unformatted print exactly if no key and no string value
   * ends in a backslash, except a string value with nothing but closing brackets behind it.
   */
  lemma MinifyUndoesFormatting(v: Json)
    requires Printable(v)
    ensures Minified(Unparse(v, true, 0), false) == Unparse(v, false, 0) <==> ShapeOf(v) != Broken
  {
    hide Unparse, ShapeOf;
    MinifyPrinted(v, 0, []);
    var f, u := Unparse(v, true, 0), Unparse(v, false, 0);
    assert f + [] == f;
    assert u + [] == u;
  }

  /** The smallest kind of exception: after a string that ends in a backslash the space behind the comma stays. */
  lemma BackslashKeepsFormatting(v: Json, w: Json)
    requires w == Array([String([BACKSLASH]), v]) && Printable(w)
    ensures Minified(Unparse(w, true, 0), false) != Unparse(w, false, 0)
  {
    assert ItemsShape([String([BACKSLASH]), v]) == Broken;
    MinifyUndoesFormatting(w);
  }
}
