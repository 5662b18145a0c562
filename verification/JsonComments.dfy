/** What the minifier keeps and what it drops, in terms of the characters of the text. */
module JsonComments {
  import opened JsonText
  import opened JsonMinify
  import opened JsonLayout

  // ---- outside string literals

  /** Spaces, tabs and the two line ends are dropped. */
  lemma BlankIsDropped(b: byte, rest: seq<byte>)
    requires b as int in {' ' as int, '\t' as int, '\r' as int, '\n' as int}
    ensures Minified([b] + rest, false) == Minified(rest, false)
  {
    assert ([b] + rest)[1..] == rest;
  }

  /** A comment to the end of its line goes with the line feed; without one it goes to the end of the text. */
  lemma LineIsDropped(x: seq<byte>, rest: seq<byte>)
    requires forall i :: 0 <= i < |x| ==> x[i] as int != '\n' as int
    ensures Minified(Of("//") + x + Of("\n") + rest, false) == Minified(rest, false)
    ensures Minified(Of("//") + x, false) == []
  {
    var behind := x + Of("\n") + rest;
    AfterOneLine(x, rest);
    Starts("//", behind);
    Starts("//", x);
    assert Of("//") + x + Of("\n") + rest == Of("//") + behind;
  }

  lemma Starts(s: string, rest: seq<byte>)
    requires |s| == 2 && s[0] as int < 256 && s[1] as int < 256
    ensures var t := Of(s) + rest; |t| > 1 && t[0] as int == s[0] as int && t[1] as int == s[1] as int && t[2..] == rest
  {
  }

  lemma {:induction false} AfterOneLine(x: seq<byte>, rest: seq<byte>)
    requires forall i :: 0 <= i < |x| ==> x[i] as int != '\n' as int
    ensures AfterLine(x + Of("\n") + rest) == rest && AfterLine(x) == []
    decreases |x|
  {
    var t := x + Of("\n") + rest;
    if x == [] {
      assert t[0] as int == '\n' as int && t[1..] == rest;
    } else {
      assert t[0] == x[0] && t[1..] == x[1..] + Of("\n") + rest;
      AfterOneLine(x[1..], rest);
    }
  }

  /** The end of a block comment is not in the text. */
  predicate NoEnd(x: seq<byte>) {
    forall i :: 0 <= i < |x| - 1 ==> !(x[i] as int == '*' as int && x[i + 1] as int == '/' as int)
  }

  /** A block comment goes with its end. */
  lemma BlockIsDropped(x: seq<byte>, rest: seq<byte>)
    requires NoEnd(x + Of("*"))
    ensures Minified(Of("/*") + x + Of("*/") + rest, false) == Minified(rest, false)
  {
    hide AfterBlock, AfterLine, NoEnd;
    var behind := x + Of("*/") + rest;
    AfterOneBlock(x, rest);
    Starts("/*", behind);
    assert Of("/*") + x + Of("*/") + rest == Of("/*") + behind;
  }

  /** Without an end it goes to the end of the text. */
  lemma OpenBlockIsDropped(x: seq<byte>)
    requires NoEnd(x)
    ensures Minified(Of("/*") + x, false) == []
  {
    hide AfterBlock, AfterLine, NoEnd;
    AfterNoBlock(x);
    Starts("/*", x);
  }

  lemma {:induction false} AfterNoBlock(x: seq<byte>)
    requires NoEnd(x)
    ensures AfterBlock(x) == []
    decreases |x|
  {
    if x != [] {
      forall i | 0 <= i < |x| - 2
        ensures !(x[1..][i] as int == '*' as int && x[1..][i + 1] as int == '/' as int)
      {
        assert x[1..][i] == x[i + 1] && x[1..][i + 1] == x[i + 2];
      }
      AfterNoBlock(x[1..]);
    }
  }

  lemma {:induction false} AfterOneBlock(x: seq<byte>, rest: seq<byte>)
    requires NoEnd(x + Of("*"))
    ensures AfterBlock(x + Of("*/") + rest) == rest
    decreases |x|
  {
    var t := x + Of("*/") + rest;
    if x == [] {
      Starts("*/", rest);
      assert t == Of("*/") + rest;
    } else {
      var y := x + Of("*");
      assert t[0] == x[0] == y[0] && t[1] == y[1] && t[1..] == x[1..] + Of("*/") + rest;
      assert !(y[0] as int == '*' as int && y[0 + 1] as int == '/' as int);
      assert y[1..] == x[1..] + Of("*");
      forall i | 0 <= i < |y| - 2
        ensures !(y[1..][i] as int == '*' as int && y[1..][i + 1] as int == '/' as int)
      {
        assert y[1..][i] == y[i + 1] && y[1..][i + 1] == y[i + 2];
      }
      AfterOneBlock(x[1..], rest);
    }
  }

  /** A slash that starts no comment goes alone, a quote starts a string literal, and everything else stays. */
  lemma ByteOutside(b: byte, rest: seq<byte>)
    ensures b as int == '/' as int && (rest == [] || rest[0] as int !in {'/' as int, '*' as int}) ==>
              Minified([b] + rest, false) == Minified(rest, false)
    ensures b as int == '"' as int ==> Minified([b] + rest, false) == [b] + Minified(rest, true)
    ensures b as int !in {' ' as int, '\t' as int, '\r' as int, '\n' as int, '/' as int, '"' as int} ==>
              Minified([b] + rest, false) == [b] + Minified(rest, false)
    ensures Minified([], false) == []
  {
    hide AfterLine, AfterBlock;
    assert ([b] + rest)[1..] == rest;
  }

  // ---- inside string literals

  /** Everything stays; a quote ends the literal unless a backslash comes right before it. */
  lemma ByteInside(b: byte, rest: seq<byte>)
    ensures b as int == '"' as int ==> Minified([b] + rest, true) == [b] + Minified(rest, false)
    ensures Minified(Of("\\\"") + rest, true) == Of("\\\"") + Minified(rest, true)
    ensures b as int != '"' as int && !(b as int == '\\' as int && rest != [] && rest[0] as int == '"' as int) ==>
              Minified([b] + rest, true) == [b] + Minified(rest, true)
    ensures Minified([], true) == []
  {
    hide AfterLine, AfterBlock;
    assert ([b] + rest)[1..] == rest;
    Starts("\\\"", rest);
    assert Of("\\\"") == [BACKSLASH, QUOTE];
  }
}
