/** Parsing what the minifier leaves of a text. */
module JsonMinifyParse {
  import opened JsonText
  import opened JsonValue
  import opened JsonParse
  import opened JsonUnparse
  import opened JsonRoundTrip
  import opened JsonMinify
  import JsonMinifyLaws

  // ---- literals the minifier leaves alone

  /** A byte the minifier leaves out, or starts a comment with, where it believes itself outside string literals. */
  predicate IsDropped(b: byte) {
    IsBlank(b) || b == SLASH
  }

  /**
   * Outside a string literal, of a text without comments, with the minifier believing itself inside one or not: it
   * drops no byte of the literals to come. Each side has its own idea of where they end.
   */
  predicate KeepsText(s: seq<byte>, inString: bool)
    decreases |s|
  {
    s == [] || (if s[0] == QUOTE then KeepsLiteral(s[1..], !inString) else KeepsText(s[1..], inString))
  }

  /** Inside one. */
  predicate KeepsLiteral(s: seq<byte>, inString: bool)
    decreases |s|
  {
    if s == [] then true
    else if s[0] == QUOTE then KeepsText(s[1..], !inString)
    else if s[0] == BACKSLASH && |s| > 1 then
      if inString && s[1] == BACKSLASH && |s| > 2 && s[2] == QUOTE then KeepsText(s[3..], true)
      else if s[1] == QUOTE then KeepsLiteral(s[2..], true)
      else (inString || !IsDropped(s[1])) && KeepsLiteral(s[2..], inString)
    else (inString || !IsDropped(s[0])) && KeepsLiteral(s[1..], inString)
  }

  // ---- corresponding places

  /** The text from p on, without its NUL. */
  function Rest(c: seq<byte>, p: nat): seq<byte>
    requires p < |c|
  {
    c[p..|c| - 1]
  }

  /** From p on the minifier keeps the literals, and m from i on is what it makes of the text. */
  ghost predicate Mirrors(c: seq<byte>, p: nat, m: seq<byte>, i: nat) {
    exists inString :: MirrorsIn(c, p, m, i, inString)
  }

  ghost predicate MirrorsIn(c: seq<byte>, p: nat, m: seq<byte>, i: nat, inString: bool) {
    p < |c| && i < |m| && c[|c| - 1] == NUL && m[|m| - 1] == NUL
    && KeepsText(Rest(c, p), inString) && Rest(m, i) == Minified(Rest(c, p), inString)
  }

  predicate IsPlain(b: byte) {
    !IsBlank(b) && b != SLASH && b != QUOTE && b != BACKSLASH
  }

  lemma RestStep(c: seq<byte>, p: nat)
    requires p < |c|
    ensures Rest(c, p) == [] <==> p == |c| - 1
    ensures p < |c| - 1 ==> Rest(c, p)[0] == c[p] && Rest(c, p)[1..] == Rest(c, p + 1)
  {
  }

  /** A byte the minifier copies in any case. */
  lemma PlainStays(c: seq<byte>, p: nat, m: seq<byte>, i: nat)
    requires Mirrors(c, p, m, i) && p < |c| - 1 && IsPlain(c[p])
    ensures Mirrors(c, p + 1, m, i + 1) && m[i] == c[p]
  {
    var inString :| MirrorsIn(c, p, m, i, inString);
    CopiedStays(c, p, m, i, inString);
  }

  lemma CopiedStays(c: seq<byte>, p: nat, m: seq<byte>, i: nat, inString: bool)
    requires MirrorsIn(c, p, m, i, inString) && p < |c| - 1
    requires c[p] != QUOTE && c[p] != BACKSLASH && (inString || !IsDropped(c[p]))
    ensures MirrorsIn(c, p + 1, m, i + 1, inString) && m[i] == c[p]
  {
    RestStep(c, p);
    RestStep(m, i);
    var s := Rest(c, p);
    assert Minified(s, inString) == [s[0]] + Minified(s[1..], inString);
    assert Rest(m, i)[1..] == Minified(s[1..], inString);
  }

  /** A blank goes or stays. */
  lemma BlankStep(c: seq<byte>, p: nat, m: seq<byte>, i: nat) returns (j: nat)
    requires Mirrors(c, p, m, i) && IsBlank(c[p])
    ensures Mirrors(c, p + 1, m, j) && (j == i || (j == i + 1 && m[i] == c[p]))
  {
    var inString :| MirrorsIn(c, p, m, i, inString);
    RestStep(c, p);
    j := i;
    if inString {
      CopiedStays(c, p, m, i, inString);
      j := i + 1;
    } else {
      assert MirrorsIn(c, p + 1, m, i, inString);
    }
  }

  lemma NothingMirrors(c: seq<byte>, p: nat, m: seq<byte>, i: nat)
    requires Mirrors(c, p, m, i) && p == |c| - 1
    ensures i == |m| - 1
  {
    var inString :| MirrorsIn(c, p, m, i, inString);
    RestStep(c, p);
    RestStep(m, i);
  }

  /** A byte that is no white space and starts no comment. */
  lemma VisibleStays(c: seq<byte>, p: nat, m: seq<byte>, i: nat)
    requires Mirrors(c, p, m, i) && c[p] > SPACE && c[p] != SLASH
    ensures p < |c| - 1 && i < |m| - 1 && m[i] == c[p]
  {
    var inString :| MirrorsIn(c, p, m, i, inString);
    RestStep(c, p);
    RestStep(m, i);
    var s := Rest(c, p);
    assert Minified(s, inString)[0] == s[0];
  }

  lemma MirrorsBounds(c: seq<byte>, p: nat, m: seq<byte>, i: nat)
    requires Mirrors(c, p, m, i)
    ensures p < |c| && i < |m| && c[|c| - 1] == NUL && m[|m| - 1] == NUL
  {
  }

  lemma SkipOne(c: seq<byte>, p: nat)
    requires p < |c| - 1 && c[p] <= SPACE
    ensures Skip(c, p) == Skip(c, p + 1)
  {
  }

  lemma SkipEnd(c: seq<byte>, p: nat)
    requires p == |c| - 1 && c[p] <= SPACE
    ensures Skip(c, p) == p
  {
  }

  /** Skipping white space leads from corresponding places to corresponding places. */
  lemma {:induction false} SkipStays(c: seq<byte>, p: nat, m: seq<byte>, i: nat) returns (j: nat)
    requires Mirrors(c, p, m, i) && c[Skip(c, p)] != SLASH
    ensures Skip(c, p) < |c| && i < |m| && j == Skip(m, i) && Mirrors(c, Skip(c, p), m, j)
    ensures j < |m| && m[j] == c[Skip(c, p)] && (i == j || m[i] <= SPACE)
    decreases |c| - p
  {
    hide Mirrors, Skip, IsPlain, IsBlank;
    MirrorsBounds(c, p, m, i);
    if c[p] > SPACE {
      j := i;
      SkipNothing(c, p);
      VisibleStays(c, p, m, i);
      SkipNothing(m, i);
    } else if p == |c| - 1 {
      j := i;
      NothingMirrors(c, p, m, i);
      SkipEnd(c, p);
      SkipEnd(m, i);
    } else {
      SkipOne(c, p);
      if IsBlank(c[p]) {
        var k := BlankStep(c, p, m, i);
        MirrorsBounds(c, p + 1, m, k);
        if k > i {
          BlankIsLow(c[p]);
          SkipOne(m, i);
        }
        j := SkipStays(c, p + 1, m, k);
      } else {
        ControlIsPlain(c[p]);
        PlainStays(c, p, m, i);
        MirrorsBounds(c, p + 1, m, i + 1);
        SkipOne(m, i);
        j := SkipStays(c, p + 1, m, i + 1);
      }
    }
  }

  lemma BlankIsLow(b: byte)
    requires IsBlank(b)
    ensures b <= SPACE
  {
  }

  lemma ControlIsPlain(b: byte)
    requires b <= SPACE && !IsBlank(b)
    ensures IsPlain(b)
  {
  }

  // ---- words and numbers

  /** A run of plain bytes. */
  lemma {:induction false} RunStays(c: seq<byte>, p: nat, m: seq<byte>, i: nat, t: seq<byte>)
    requires Mirrors(c, p, m, i) && At(c, p, t) && p + |t| < |c| && forall k :: 0 <= k < |t| ==> IsPlain(t[k])
    ensures At(m, i, t) && Mirrors(c, p + |t|, m, i + |t|)
    decreases |t|
  {
    hide Mirrors, IsPlain;
    MirrorsBounds(c, p, m, i);
    if t != [] {
      AtIndex(c, p, t, 0);
      assert t == [t[0]] + t[1..];
      AtParts(c, p, [t[0]], t[1..]);
      PlainStays(c, p, m, i);
      RunStays(c, p + 1, m, i + 1, t[1..]);
      AtJoin(m, i, [t[0]], t[1..]);
    }
  }

  /** What may stand behind a value, perhaps after white space. */
  predicate Ends(b: byte) {
    b == COMMA || b == RBRACKET || b == RBRACE || b == NUL
  }

  ghost predicate EndsAt(c: seq<byte>, p: nat) {
    p < |c| && Ends(c[Skip(c, p)])
  }

  lemma NoNumberBehind(c: seq<byte>, p: nat)
    requires EndsAt(c, p)
    ensures !IsNumberByte(c[p])
  {
    if c[p] > SPACE {
      SkipNothing(c, p);
    }
  }

  lemma {:induction false} FullRun(c: seq<byte>, p: nat, t: seq<byte>)
    requires At(c, p, t) && forall k :: 0 <= k < |t| ==> IsNumberByte(t[k])
    ensures NumberRun(c, p, |t|) == t
    decreases |t|
  {
    if t != [] {
      AtIndex(c, p, t, 0);
      assert t == [t[0]] + t[1..];
      AtParts(c, p, [t[0]], t[1..]);
      FullRun(c, p + 1, t[1..]);
    }
  }

  lemma AtEach(c: seq<byte>, p: nat, t: seq<byte>)
    requires At(c, p, t)
    ensures forall k {:trigger t[k]} :: 0 <= k < |t| ==> c[p + k] == t[k]
  {
    forall k {:trigger t[k]} | 0 <= k < |t| ensures c[p + k] == t[k] {
      AtIndex(c, p, t, k);
    }
  }

  lemma NumberStays(c: seq<byte>, p: nat, m: seq<byte>, i: nat) returns (j: nat)
    requires Mirrors(c, p, m, i) && ParseNumber(c, p).Parsed? && EndsAt(c, ParseNumber(c, p).pos)
    ensures i < |m| && ParseNumber(m, i) == Parsed(ParseNumber(c, p).value, j)
    ensures Mirrors(c, ParseNumber(c, p).pos, m, j)
  {
    hide Mirrors, Strtod, NumberRun, Skip, EndsAt;
    MirrorsBounds(c, p, m, i);
    var t := NumberRun(c, p, NUMBER_BUFFER);
    var end := ParseNumber(c, p).pos;
    NoNumberBehind(c, end);
    BoundsOfEnds(c, end);
    var length := end - p;
    AtEach(c, p, t);
    assert length == |t|;
    NumberBytesArePlain(t);
    RunStays(c, p, m, i, t);
    j := i + |t|;
    var k := SkipStaysAtEnd(c, end, m, j);
    if |t| < NUMBER_BUFFER {
      NumberRunOf(m, i, t, NUMBER_BUFFER);
    } else {
      FullRun(m, i, t);
    }
  }

  lemma BoundsOfEnds(c: seq<byte>, p: nat)
    requires EndsAt(c, p)
    ensures p < |c| && Skip(c, p) < |c| && c[Skip(c, p)] != SLASH
  {
  }

  lemma NumberBytesArePlain(t: seq<byte>)
    requires forall k :: 0 <= k < |t| ==> IsNumberByte(t[k])
    ensures forall k :: 0 <= k < |t| ==> IsPlain(t[k])
  {
  }

  lemma SkipStaysAtEnd(c: seq<byte>, p: nat, m: seq<byte>, i: nat) returns (j: nat)
    requires Mirrors(c, p, m, i) && EndsAt(c, p)
    ensures i < |m| && j == Skip(m, i) && j < |m| && Mirrors(c, Skip(c, p), m, j) && m[j] == c[Skip(c, p)]
    ensures EndsAt(m, i) && !IsNumberByte(m[i])
  {
    j := SkipStays(c, p, m, i);
    NoNumberBehind(m, i);
  }

  // ---- string literals

  /** A byte range standing elsewhere. */
  ghost predicate SameBytes(c: seq<byte>, p: nat, m: seq<byte>, i: nat, n: nat) {
    p + n <= |c| && i + n <= |m| && c[p..p + n] == m[i..i + n]
  }

  lemma SameSub(c: seq<byte>, p: nat, m: seq<byte>, i: nat, n: nat, k: nat, l: nat)
    requires SameBytes(c, p, m, i, n) && k + l <= n
    ensures SameBytes(c, p + k, m, i + k, l) && c[p + k..p + k + l] == m[i + k..i + k + l]
    ensures k < n ==> c[p + k] == m[i + k]
  {
    SliceOfSlice(c, p, n, k, l);
    SliceOfSlice(m, i, n, k, l);
    if k < n {
      assert c[p..p + n][k] == c[p + k];
    }
  }

  lemma SliceOfSlice(c: seq<byte>, p: nat, n: nat, k: nat, l: nat)
    requires p + n <= |c| && k + l <= n
    ensures c[p..p + n][k..k + l] == c[p + k..p + k + l]
  {
    var s, t := c[p..p + n][k..k + l], c[p + k..p + k + l];
    assert |s| == |t| && forall j :: 0 <= j < l ==> s[j] == t[j];
  }

  lemma ScanStep(c: seq<byte>, p: nat)
    requires p < |c|
    ensures c[p] == QUOTE ==> Scan(c, p) == Closed(p, 0)
    ensures c[p] != QUOTE && Scan(c, p).Closed? ==>
              var n := if c[p] == BACKSLASH then 2 else 1;
              p + n <= |c| && Scan(c, p + n).Closed? && Scan(c, p + n).end == Scan(c, p).end
    ensures c[p] == BACKSLASH && p + 1 < |c| && Scan(c, p + 2).Closed? ==>
              Scan(c, p) == Closed(Scan(c, p + 2).end, Scan(c, p + 2).escapes + 1)
    ensures c[p] != QUOTE && c[p] != BACKSLASH ==> Scan(c, p) == Scan(c, p + 1)
  {
  }

  lemma {:induction false} ScanMoves(c: seq<byte>, p: nat, m: seq<byte>, i: nat, n: nat)
    requires SameBytes(c, p, m, i, n + 1) && Scan(c, p).Closed? && Scan(c, p).end == p + n
    ensures Scan(m, i) == Closed(i + n, Scan(c, p).escapes)
    decreases n
  {
    hide SameBytes, Scan;
    BytesBounds(c, p, m, i, n + 1);
    SameSub(c, p, m, i, n + 1, 0, 1);
    ScanStep(c, p);
    ScanStep(m, i);
    if c[p] == BACKSLASH {
      SameSub(c, p, m, i, n + 1, 2, n - 1);
      ScanMoves(c, p + 2, m, i + 2, n - 2);
    } else if c[p] != QUOTE {
      SameSub(c, p, m, i, n + 1, 1, n);
      ScanMoves(c, p + 1, m, i + 1, n - 1);
    }
  }

  lemma BytesBounds(c: seq<byte>, p: nat, m: seq<byte>, i: nat, n: nat)
    requires SameBytes(c, p, m, i, n)
    ensures p + n <= |c| && i + n <= |m|
  {
  }

  lemma Utf16Moves(c: seq<byte>, p: nat, m: seq<byte>, i: nat, n: nat)
    requires SameBytes(c, p, m, i, n)
    ensures p + n <= |c| && i + n <= |m| && Utf16Escape(m, i, i + n) == Utf16Escape(c, p, p + n)
  {
    hide SameBytes, Utf8, Hex4;
    BytesBounds(c, p, m, i, n);
    if n >= 6 {
      SameSub(c, p, m, i, n, 2, 4);
    }
    if n >= 12 {
      SameSub(c, p, m, i, n, 6, 1);
      SameSub(c, p, m, i, n, 7, 1);
      SameSub(c, p, m, i, n, 8, 4);
    }
  }

  lemma EscapeMoves(c: seq<byte>, p: nat, m: seq<byte>, i: nat, n: nat)
    requires SameBytes(c, p, m, i, n + 1) && n > 0
    ensures p + n < |c| && i + n < |m| && EscapeAt(m, i, i + n) == EscapeAt(c, p, p + n)
  {
    hide SameBytes, Utf16Escape;
    BytesBounds(c, p, m, i, n + 1);
    SameSub(c, p, m, i, n + 1, 1, 1);
    SameSub(c, p, m, i, n + 1, 0, n);
    Utf16Moves(c, p, m, i, n);
  }

  lemma {:induction false} UnescapeMoves(c: seq<byte>, p: nat, m: seq<byte>, i: nat, n: nat)
    requires SameBytes(c, p, m, i, n + 1) && Unescape(c, p, p + n).Unescaped?
    ensures Unescape(m, i, i + n) == Unescape(c, p, p + n)
    decreases n
  {
    hide SameBytes, EscapeAt;
    BytesBounds(c, p, m, i, n + 1);
    if n > 0 {
      SameSub(c, p, m, i, n + 1, 0, 1);
      var l := 1;
      if c[p] == BACKSLASH {
        EscapeMoves(c, p, m, i, n);
        l := EscapeAt(c, p, p + n).length;
      }
      if l <= n {
        SameSub(c, p, m, i, n + 1, l, n + 1 - l);
        UnescapeMoves(c, p + l, m, i + l, n - l);
      }
    }
  }

  lemma CopiedInside(s: seq<byte>)
    requires s != [] && s[0] != QUOTE && !(|s| > 1 && s[0] == BACKSLASH && s[1] == QUOTE)
    ensures Minified(s, true) == [s[0]] + Minified(s[1..], true)
  {
  }

  lemma CopiedPair(s: seq<byte>)
    requires |s| > 1 && s[0] == BACKSLASH && s[1] == QUOTE
    ensures Minified(s, true) == [s[0], s[1]] + Minified(s[2..], true)
  {
  }

  /** An escape of two bytes that does not hide the closing quote. */
  lemma TwoByteStep(s: seq<byte>, inString: bool)
    requires |s| > 1 && s[0] == BACKSLASH && KeepsLiteral(s, inString)
    requires !(inString && s[1] == BACKSLASH && |s| > 2 && s[2] == QUOTE)
    ensures var after := inString || s[1] == QUOTE;
            KeepsLiteral(s[2..], after) && Minified(s, inString) == [s[0], s[1]] + Minified(s[2..], after)
  {
    var after := inString || s[1] == QUOTE;
    assert s[1..][1..] == s[2..];
    if inString && s[1] != QUOTE {
      CopiedInside(s);
      CopiedInside(s[1..]);
      Associative([s[0]], [s[1]], Minified(s[2..], true));
    } else if !inString {
      assert Minified(s, false) == [s[0]] + Minified(s[1..], false);
      assert Minified(s[1..], false) == [s[1]] + Minified(s[2..], after);
      Associative([s[0]], [s[1]], Minified(s[2..], after));
    }
  }

  /** An escaped backslash and the closing quote, which the minifier takes for an escaped quote. */
  lemma HiddenQuoteStep(s: seq<byte>)
    requires |s| > 2 && s[0] == BACKSLASH && s[1] == BACKSLASH && s[2] == QUOTE && KeepsLiteral(s, true)
    ensures KeepsText(s[3..], true) && Minified(s, true) == [s[0], s[1], s[2]] + Minified(s[3..], true)
  {
    CopiedInside(s);
    CopiedPair(s[1..]);
    hide Minified, KeepsText;
    assert s[1..][2..] == s[3..];
    Associative([s[0]], [s[1], s[2]], Minified(s[3..], true));
  }

  /** The closing quote, or a byte that is neither a quote nor a backslash. */
  lemma OneByteStep(s: seq<byte>, inString: bool)
    requires s != [] && s[0] != BACKSLASH && KeepsLiteral(s, inString)
    ensures var after := inString != (s[0] == QUOTE);
            (if s[0] == QUOTE then KeepsText(s[1..], after) else KeepsLiteral(s[1..], after))
            && Minified(s, inString) == [s[0]] + Minified(s[1..], after)
  {
  }

  /** The bytes from p to q are copied, before whatever else. */
  lemma CopiedFirst(c: seq<byte>, p: nat, q: nat, end: nat, rest: seq<byte>)
    requires p <= q <= end <= |c|
    ensures c[p..q] + (c[q..end] + rest) == c[p..end] + rest
  {
    assert c[p..q] + c[q..end] == c[p..end];
    Associative(c[p..q], c[q..end], rest);
  }

  lemma RestBytes(c: seq<byte>, p: nat, n: nat)
    requires p + n < |c|
    ensures |Rest(c, p)| >= n && Rest(c, p)[n..] == Rest(c, p + n) && Rest(c, p)[..n] == c[p..p + n]
    ensures forall k :: 0 <= k < n ==> Rest(c, p)[k] == c[p + k]
  {
  }

  /** The next one to three bytes of a literal, at the end of which it is closed or goes on. */
  lemma LiteralStep(c: seq<byte>, p: nat, end: nat, inString: bool) returns (n: nat, after: bool)
    requires p <= end < |c| - 1 && KeepsLiteral(Rest(c, p), inString) && Scan(c, p).Closed? && Scan(c, p).end == end
    ensures 0 < n && p + n <= end + 1
    ensures if p + n == end + 1 then KeepsText(Rest(c, p + n), after)
            else KeepsLiteral(Rest(c, p + n), after) && Scan(c, p + n).Closed? && Scan(c, p + n).end == end
    ensures Minified(Rest(c, p), inString) == c[p..p + n] + Minified(Rest(c, p + n), after)
  {
    hide Minified, KeepsLiteral, KeepsText, Scan, Rest;
    var s := Rest(c, p);
    RestBytes(c, p, 1);
    ScanStep(c, p);
    n, after := 1, inString;
    if c[p] != BACKSLASH {
      OneByteStep(s, inString);
      after := inString != (c[p] == QUOTE);
    } else {
      RestBytes(c, p, 2);
      ScanStep(c, p + 2);
      n, after := EscapeStep(c, p, end, inString);
    }
  }

  lemma EscapeStep(c: seq<byte>, p: nat, end: nat, inString: bool) returns (n: nat, after: bool)
    requires p + 2 <= end < |c| - 1 && KeepsLiteral(Rest(c, p), inString) && c[p] == BACKSLASH && c[end] == QUOTE
    requires c[p + 2] == QUOTE ==> end == p + 2
    ensures n == 2 || (n == 3 && end == p + 2)
    ensures if n == 3 then KeepsText(Rest(c, p + n), after) else KeepsLiteral(Rest(c, p + n), after)
    ensures Minified(Rest(c, p), inString) == c[p..p + n] + Minified(Rest(c, p + n), after)
  {
    hide Minified, KeepsLiteral, KeepsText, Rest;
    RestBytes(c, p, 2);
    RestBytes(c, p, 3);
    if inString && c[p + 1] == BACKSLASH && c[p + 2] == QUOTE {
      HiddenQuoteStep(Rest(c, p));
      n, after := 3, true;
    } else {
      TwoByteStep(Rest(c, p), inString);
      n, after := 2, inString || c[p + 1] == QUOTE;
    }
  }

  /** The minifier copies a literal that it keeps whole, and comes out of it inside a string or not. */
  lemma {:induction false} LiteralStays(c: seq<byte>, p: nat, end: nat, inString: bool) returns (after: bool)
    requires p <= end < |c| - 1 && KeepsLiteral(Rest(c, p), inString) && Scan(c, p).Closed? && Scan(c, p).end == end
    ensures KeepsText(Rest(c, end + 1), after)
    ensures Minified(Rest(c, p), inString) == c[p..end + 1] + Minified(Rest(c, end + 1), after)
    decreases |c| - p
  {
    hide Minified, KeepsLiteral, KeepsText, Scan, Rest;
    var n;
    n, after := LiteralStep(c, p, end, inString);
    if p + n <= end {
      after := LiteralStays(c, p + n, end, after);
      CopiedFirst(c, p, p + n, end + 1, Minified(Rest(c, end + 1), after));
    }
  }

  lemma CopyStands(m: seq<byte>, i: nat, literal: seq<byte>, rest: seq<byte>)
    requires i < |m| && Rest(m, i) == [QUOTE] + (literal + rest)
    ensures var j := i + 1 + |literal|;
            j < |m| && m[i] == QUOTE && m[i + 1..j] == literal && Rest(m, j) == rest
  {
    RestBytes(m, i, 1);
    var t := Rest(m, i);
    assert t[1..] == literal + rest;
    RestBytes(m, i + 1, |literal|);
  }

  lemma LiteralStands(c: seq<byte>, p: nat, m: seq<byte>, i: nat, end: nat) returns (j: nat)
    requires Mirrors(c, p, m, i) && c[p] == QUOTE && Scan(c, p + 1).Closed? && Scan(c, p + 1).end == end
    ensures i < |m| && m[i] == QUOTE && j == i + 1 + (end - p) && Mirrors(c, end + 1, m, j)
    ensures SameBytes(c, p + 1, m, i + 1, end - p)
  {
    hide Scan, KeepsLiteral, KeepsText, Minified;
    var inString :| MirrorsIn(c, p, m, i, inString);
    RestStep(c, p);
    RestStep(m, i);
    LiteralOpens(Rest(c, p), inString);
    QuoteIsInside(c, end);
    var after := LiteralStays(c, p + 1, end, !inString);
    var literal := c[p + 1..end + 1];
    j := i + 1 + |literal|;
    CopyStands(m, i, literal, Minified(Rest(c, end + 1), after));
    assert MirrorsIn(c, end + 1, m, j, after);
  }

  lemma StringStays(c: seq<byte>, p: nat, m: seq<byte>, i: nat) returns (j: nat)
    requires Mirrors(c, p, m, i) && ParseString(c, p).Parsed?
    ensures i < |m| && ParseString(m, i) == Parsed(ParseString(c, p).value, j)
    ensures Mirrors(c, ParseString(c, p).pos, m, j)
  {
    hide Scan, Unescape, Mirrors, SameBytes;
    MirrorsBounds(c, p, m, i);
    var end := Scan(c, p + 1).end;
    j := LiteralStands(c, p, m, i, end);
    ScanMoves(c, p + 1, m, i + 1, end - (p + 1));
    UnescapeMoves(c, p + 1, m, i + 1, end - (p + 1));
  }

  lemma QuoteIsInside(c: seq<byte>, p: nat)
    requires p < |c| && c[p] == QUOTE && c[|c| - 1] == NUL
    ensures p < |c| - 1
  {
  }

  lemma LiteralOpens(s: seq<byte>, inString: bool)
    requires s != [] && s[0] == QUOTE && KeepsText(s, inString)
    ensures KeepsLiteral(s[1..], !inString) && Minified(s, inString) == [QUOTE] + Minified(s[1..], !inString)
  {
  }

  // ---- values

  /** One byte of punctuation. */
  lemma PunctuationStays(c: seq<byte>, p: nat, m: seq<byte>, i: nat)
    requires Mirrors(c, p, m, i) && c[p] in {COMMA, COLON, LBRACKET, RBRACKET, LBRACE, RBRACE}
    ensures Mirrors(c, p + 1, m, i + 1) && i + 1 < |m| && p + 1 < |c| && m[i] == c[p]
  {
    PlainStays(c, p, m, i);
  }

  /** A value starts with no comment and ends before the NUL. */
  lemma ValueStarts(c: seq<byte>, p: nat, depth: nat)
    requires p < |c| && c[|c| - 1] == NUL && ParseValue(c, p, depth).Parsed?
    ensures SPACE < c[p] < 0x80 && c[p] != SLASH
  {
    if At(c, p, NULL_WORD) { AtIndex(c, p, NULL_WORD, 0); }
    if At(c, p, FALSE_WORD) { AtIndex(c, p, FALSE_WORD, 0); }
    if At(c, p, TRUE_WORD) { AtIndex(c, p, TRUE_WORD, 0); }
  }

  lemma WordStays(c: seq<byte>, p: nat, m: seq<byte>, i: nat, word: seq<byte>)
    requires Mirrors(c, p, m, i) && At(c, p, word) && word in {NULL_WORD, FALSE_WORD, TRUE_WORD}
    ensures At(m, i, word) && Mirrors(c, p + |word|, m, i + |word|)
  {
    AtIndex(c, p, word, |word| - 1);
    RunStays(c, p, m, i, word);
  }

  /**
   * A value parsed from a text, with a separator, a closing bracket or the end behind it, is parsed from the
   * corresponding place of the minified text.
   */
  lemma {:induction false} ValueStays(c: seq<byte>, p: nat, m: seq<byte>, i: nat, depth: nat) returns (j: nat)
    requires Mirrors(c, p, m, i) && ParseValue(c, p, depth).Parsed? && EndsAt(c, ParseValue(c, p, depth).pos)
    ensures i < |m| && ParseValue(m, i, depth) == Parsed(ParseValue(c, p, depth).value, j)
    ensures Mirrors(c, ParseValue(c, p, depth).pos, m, j)
    decreases |c| - p, 1
  {
    hide Mirrors, ParseString, ParseNumber, ParseArray, ParseObject, EndsAt;
    MirrorsBounds(c, p, m, i);
    ValueStarts(c, p, depth);
    VisibleStays(c, p, m, i);
    OtherWords(m, i);
    if At(c, p, NULL_WORD) {
      WordStays(c, p, m, i, NULL_WORD);
      j := i + 4;
    } else if At(c, p, FALSE_WORD) {
      WordStays(c, p, m, i, FALSE_WORD);
      j := i + 5;
    } else if At(c, p, TRUE_WORD) {
      WordStays(c, p, m, i, TRUE_WORD);
      j := i + 4;
    } else if c[p] == QUOTE {
      j := StringStays(c, p, m, i);
    } else if c[p] == LBRACKET {
      j := ArrayStays(c, p, m, i, depth);
    } else if c[p] == LBRACE {
      j := ObjectStays(c, p, m, i, depth);
    } else {
      j := NumberStays(c, p, m, i);
    }
  }

  lemma {:induction false} ArrayStays(c: seq<byte>, p: nat, m: seq<byte>, i: nat, depth: nat) returns (j: nat)
    requires Mirrors(c, p, m, i) && c[p] == LBRACKET && ParseArray(c, p, depth).Parsed?
    ensures i < |m| && ParseArray(m, i, depth) == Parsed(ParseArray(c, p, depth).value, j)
    ensures Mirrors(c, ParseArray(c, p, depth).pos, m, j)
    decreases |c| - p, 0
  {
    hide Mirrors, Skip, ParseItems, ParseValue;
    MirrorsBounds(c, p, m, i);
    PunctuationStays(c, p, m, i);
    var q := Skip(c, p + 1);
    if c[q] == RBRACKET {
      var k := SkipStays(c, p + 1, m, i + 1);
      PunctuationStays(c, q, m, k);
      j := k + 1;
    } else {
      ItemsStart(c, q, depth + 1);
      var k := SkipStays(c, p + 1, m, i + 1);
      j := ItemsStay(c, q, m, k, depth + 1);
    }
  }

  lemma ItemsStart(c: seq<byte>, p: nat, depth: nat)
    requires p < |c| && c[|c| - 1] == NUL && ParseItems(c, p, depth).Items?
    ensures c[p] > SPACE && c[p] != SLASH
  {
    hide ParseValue, Skip;
    ValueStarts(c, p, depth);
  }

  lemma {:induction false} ItemsStay(c: seq<byte>, p: nat, m: seq<byte>, i: nat, depth: nat) returns (j: nat)
    requires Mirrors(c, p, m, i) && ParseItems(c, p, depth).Items?
    ensures i < |m| && ParseItems(m, i, depth) == Items(ParseItems(c, p, depth).items, j)
    ensures Mirrors(c, ParseItems(c, p, depth).pos, m, j)
    decreases |c| - p, 2
  {
    hide Mirrors, Skip, ParseValue;
    MirrorsBounds(c, p, m, i);
    var first := ParseValue(c, p, depth);
    var q := Skip(c, first.pos);
    assert EndsAt(c, first.pos);
    var k := ValueStays(c, p, m, i, depth);
    k := SkipStays(c, first.pos, m, k);
    PunctuationStays(c, q, m, k);
    if c[q] == COMMA {
      ItemsStart(c, Skip(c, q + 1), depth);
      k := SkipStays(c, q + 1, m, k + 1);
      j := ItemsStay(c, Skip(c, q + 1), m, k, depth);
    } else {
      j := k + 1;
    }
  }

  lemma {:induction false} ObjectStays(c: seq<byte>, p: nat, m: seq<byte>, i: nat, depth: nat) returns (j: nat)
    requires Mirrors(c, p, m, i) && c[p] == LBRACE && ParseObject(c, p, depth).Parsed?
    ensures i < |m| && ParseObject(m, i, depth) == Parsed(ParseObject(c, p, depth).value, j)
    ensures Mirrors(c, ParseObject(c, p, depth).pos, m, j)
    decreases |c| - p, 0
  {
    hide Mirrors, Skip, ParseMembers, ParseMember;
    PunctuationStays(c, p, m, i);
    var q := Skip(c, p + 1);
    if c[q] == RBRACE {
      var k := SkipStays(c, p + 1, m, i + 1);
      PunctuationStays(c, q, m, k);
      j := k + 1;
    } else {
      MembersStart(c, q, depth + 1);
      var k := SkipStays(c, p + 1, m, i + 1);
      j := MembersStay(c, q, m, k, depth + 1);
    }
  }

  lemma MembersStart(c: seq<byte>, p: nat, depth: nat)
    requires p < |c| && ParseMembers(c, p, depth).Members?
    ensures c[p] == QUOTE && ParseMember(c, p, depth).OneMember?
  {
    hide Scan, Unescape, ParseValue, Skip;
  }

  lemma {:induction false} MembersStay(c: seq<byte>, p: nat, m: seq<byte>, i: nat, depth: nat) returns (j: nat)
    requires Mirrors(c, p, m, i) && ParseMembers(c, p, depth).Members?
    ensures i < |m| && ParseMembers(m, i, depth) == Members(ParseMembers(c, p, depth).members, j)
    ensures Mirrors(c, ParseMembers(c, p, depth).pos, m, j)
    decreases |c| - p, 3
  {
    hide Mirrors, Skip, ParseMember;
    MirrorsBounds(c, p, m, i);
    var first := ParseMember(c, p, depth);
    var q := Skip(c, first.pos);
    assert EndsAt(c, first.pos);
    var k := MemberStays(c, p, m, i, depth);
    k := SkipStays(c, first.pos, m, k);
    PunctuationStays(c, q, m, k);
    if c[q] == COMMA {
      MembersStart(c, Skip(c, q + 1), depth);
      k := SkipStays(c, q + 1, m, k + 1);
      j := MembersStay(c, Skip(c, q + 1), m, k, depth);
    } else {
      j := k + 1;
    }
  }

  lemma {:induction false} MemberStays(c: seq<byte>, p: nat, m: seq<byte>, i: nat, depth: nat) returns (j: nat)
    requires Mirrors(c, p, m, i) && ParseMember(c, p, depth).OneMember? && EndsAt(c, ParseMember(c, p, depth).pos)
    ensures i < |m| && ParseMember(m, i, depth) == OneMember(ParseMember(c, p, depth).member, j)
    ensures Mirrors(c, ParseMember(c, p, depth).pos, m, j)
    decreases |c| - p, 2
  {
    hide Mirrors, Skip, ParseString, ParseValue, EndsAt;
    MirrorsBounds(c, p, m, i);
    var key := ParseString(c, p);
    var colon := Skip(c, key.pos);
    var v := Skip(c, colon + 1);
    var k := StringStays(c, p, m, i);
    k := SkipStays(c, key.pos, m, k);
    PunctuationStays(c, colon, m, k);
    ValueStarts(c, v, depth);
    k := SkipStays(c, colon + 1, m, k + 1);
    j := ValueStays(c, v, m, k, depth);
  }

  // ---- the law

  /**
   * Minifying a text that is consumed whole, and of whose literals the minifier drops no byte, does not change what
   * it parses to; the minified text is consumed whole, too.
   */
  lemma MinifyKeepsValue(t: seq<byte>)
    requires KeepsText(t, false) && Parse(t + [NUL]).Parsed?
    requires Skip(t + [NUL], Parse(t + [NUL]).pos) == |t|
    ensures var m := Minified(t, false) + [NUL];
            Parse(m).Parsed? && Parse(m).value == Parse(t + [NUL]).value && Skip(m, Parse(m).pos) == |m| - 1
  {
    hide ParseValue, Skip, Minified, KeepsText, Mirrors;
    var c, m := t + [NUL], Minified(t, false) + [NUL];
    var start := SkipMark(c);
    WholeMirrors(t);
    ValueStarts(c, Skip(c, start), 0);
    MarkStays(c, m);
    var i := SkipStays(c, start, m, start);
    var q := Parse(c).pos;
    assert EndsAt(c, q);
    var j := ValueStays(c, Skip(c, start), m, i, 0);
    var k := SkipStays(c, q, m, j);
    NothingMirrors(c, |t|, m, k);
  }

  // ---- literals the minifier understands

  /** Outside a string literal, of a text without comments: no literal ends in an escaped backslash. */
  predicate TameText(s: seq<byte>)
    decreases |s|
  {
    s == [] || (if s[0] == QUOTE then TameLiteral(s[1..]) else TameText(s[1..]))
  }

  /** Inside one. */
  predicate TameLiteral(s: seq<byte>)
    decreases |s|
  {
    if s == [] then true
    else if s[0] == QUOTE then TameText(s[1..])
    else if s[0] == BACKSLASH && |s| > 1 then
      !(s[1] == BACKSLASH && |s| > 2 && s[2] == QUOTE) && TameLiteral(s[2..])
    else TameLiteral(s[1..])
  }

  /** Then both sides always agree on where literals end, and nothing in them is dropped. */
  lemma {:induction false} TameIsKept(s: seq<byte>)
    ensures TameText(s) ==> KeepsText(s, false)
    ensures TameLiteral(s) ==> KeepsLiteral(s, true)
    decreases |s|
  {
    if s != [] {
      TameIsKept(s[1..]);
      if |s| > 1 {
        TameIsKept(s[2..]);
      }
    }
  }

  lemma WholeMirrors(t: seq<byte>)
    requires KeepsText(t, false)
    ensures Mirrors(t + [NUL], 0, Minified(t, false) + [NUL], 0)
  {
    hide KeepsText, Minified;
    var m := Minified(t, false);
    RestOfAll(t);
    RestOfAll(m);
    assert MirrorsIn(t + [NUL], 0, m + [NUL], 0, false);
  }

  lemma RestOfAll(t: seq<byte>)
    ensures Rest(t + [NUL], 0) == t
  {
  }

  lemma MarkStays(c: seq<byte>, m: seq<byte>)
    requires Mirrors(c, 0, m, 0) && SkipMark(c) < |c|
    requires SPACE < c[Skip(c, SkipMark(c))] < 0x80 && c[Skip(c, SkipMark(c))] != SLASH
    ensures SkipMark(m) == SkipMark(c) && Mirrors(c, SkipMark(c), m, SkipMark(c))
  {
    hide Mirrors, Skip;
    MirrorsBounds(c, 0, m, 0);
    if SkipMark(c) == 3 {
      PlainStays(c, 0, m, 0);
      PlainStays(c, 1, m, 1);
      PlainStays(c, 2, m, 2);
      var i := SkipStays(c, 3, m, 3);
    } else {
      var i := SkipStays(c, 0, m, 0);
    }
  }

  /** The condition is needed: `["\\","a b"]` becomes `["\\","ab"]`, another value. */
  lemma MinifyChangesValue(v: Json, w: Json, t: seq<byte>)
    requires v == Array([String([BACKSLASH]), String([LOWER_A, SPACE, LOWER_B])])
    requires w == Array([String([BACKSLASH]), String([LOWER_A, LOWER_B])])
    requires t == [LBRACKET, QUOTE, BACKSLASH, BACKSLASH, QUOTE, COMMA, QUOTE, LOWER_A, SPACE, LOWER_B, QUOTE, RBRACKET]
    ensures Parse(t + [NUL]) == Parsed(v, |t|) && Parse(Minified(t, false) + [NUL]) == Parsed(w, |t| - 1) && v != w
  {
    hide Parse, Unparse, Minified, Fits, Printable;
    var u := [LBRACKET, QUOTE, BACKSLASH, BACKSLASH, QUOTE, COMMA, QUOTE, LOWER_A, LOWER_B, QUOTE, RBRACKET];
    BackslashAnd([LOWER_A, SPACE, LOWER_B]);
    BackslashAnd([LOWER_A, LOWER_B]);
    assert t == Unparse(v, false, 0) && u == Unparse(w, false, 0);
    RoundTrip(v, false);
    RoundTrip(w, false);
    LosesBlank(t);
    assert v.items[1].text[1] != w.items[1].text[1];
  }

  /** An array of a backslash and a text without escapes. */
  lemma BackslashAnd(t: seq<byte>)
    requires forall k :: 0 <= k < |t| ==> t[k] > 31 && t[k] != QUOTE && t[k] != BACKSLASH
    ensures var v := Array([String([BACKSLASH]), String(t)]);
            Printable(v) && Fits(v, NESTING_LIMIT)
            && Unparse(v, false, 0)
               == [LBRACKET, QUOTE, BACKSLASH, BACKSLASH, QUOTE, COMMA, QUOTE] + t + [QUOTE, RBRACKET]
  {
    hide Unparse, Fits, Printable, Quoted, EscapeText;
    Pair([BACKSLASH], t);
    BackslashQuoted();
    PlainQuoted(t);
  }

  lemma Pair(s: seq<byte>, t: seq<byte>)
    requires NulFree(s) && NulFree(t)
    ensures var v := Array([String(s), String(t)]);
            Printable(v) && Fits(v, NESTING_LIMIT)
            && Unparse(v, false, 0) == [LBRACKET] + (Quoted(s) + [COMMA] + Quoted(t)) + [RBRACKET]
  {
    hide Quoted;
    var items := [String(s), String(t)];
    assert items[1..] == [String(t)] && items[1..][1..] == [];
    assert Fits(String(s), NESTING_LIMIT - 1) && Fits(String(t), NESTING_LIMIT - 1);
    assert ItemsFit(items[1..], NESTING_LIMIT - 1) && ItemsFit(items, NESTING_LIMIT - 1);
    assert PrintableItems(items[1..]) && PrintableItems(items);
    assert UnparseItems(items[1..], false, 1) == Quoted(t);
    assert [COMMA] + Layout(false, SPACE) == [COMMA];
    assert UnparseItems(items, false, 1) == Quoted(s) + [COMMA] + Quoted(t);
  }

  lemma {:induction false} PlainQuoted(t: seq<byte>)
    requires forall k :: 0 <= k < |t| ==> t[k] > 31 && t[k] != QUOTE && t[k] != BACKSLASH
    ensures EscapeText(t) == t && Quoted(t) == [QUOTE] + t + [QUOTE]
    decreases |t|
  {
    if t != [] {
      PlainQuoted(t[1..]);
    }
  }

  lemma BackslashQuoted()
    ensures Quoted([BACKSLASH]) == [QUOTE, BACKSLASH, BACKSLASH, QUOTE]
  {
    assert [BACKSLASH][1..] == [];
    assert EscapeText([BACKSLASH]) == [BACKSLASH, BACKSLASH];
  }

  lemma LosesBlank(s: seq<byte>)
    requires s == [LBRACKET, QUOTE, BACKSLASH, BACKSLASH, QUOTE, COMMA, QUOTE, LOWER_A, SPACE, LOWER_B, QUOTE, RBRACKET]
    ensures Minified(s, false)
         == [LBRACKET, QUOTE, BACKSLASH, BACKSLASH, QUOTE, COMMA, QUOTE, LOWER_A, LOWER_B, QUOTE, RBRACKET]
  {
    hide Minified;
    var r := [COMMA, QUOTE, LOWER_A, SPACE, LOWER_B, QUOTE, RBRACKET];
    TakenForEscaped(r);
    JsonMinifyLaws.EscapedQuoteStays(r);
    r := [BACKSLASH, QUOTE] + r;
    JsonMinifyLaws.MinifiedCons(BACKSLASH, r, true);
    r := [BACKSLASH] + r;
    JsonMinifyLaws.MinifiedCons(QUOTE, r, false);
    r := [QUOTE] + r;
    JsonMinifyLaws.MinifiedCons(LBRACKET, r, false);
    assert s == [LBRACKET] + r;
  }

  /** What follows a closing quote that was taken for an escaped one. */
  lemma TakenForEscaped(s: seq<byte>)
    requires s == [COMMA, QUOTE, LOWER_A, SPACE, LOWER_B, QUOTE, RBRACKET]
    ensures Minified(s, true) == [COMMA, QUOTE, LOWER_A, LOWER_B, QUOTE, RBRACKET]
  {
    hide Minified;
    NothingLeft();
    var r := [RBRACKET] + [];
    JsonMinifyLaws.MinifiedCons(RBRACKET, [], true);
    JsonMinifyLaws.MinifiedCons(QUOTE, r, false);
    r := [QUOTE] + r;
    JsonMinifyLaws.MinifiedCons(LOWER_B, r, false);
    r := [LOWER_B] + r;
    JsonMinifyLaws.MinifiedCons(SPACE, r, false);
    r := [SPACE] + r;
    JsonMinifyLaws.MinifiedCons(LOWER_A, r, false);
    r := [LOWER_A] + r;
    JsonMinifyLaws.MinifiedCons(QUOTE, r, true);
    r := [QUOTE] + r;
    JsonMinifyLaws.MinifiedCons(COMMA, r, true);
    assert s == [COMMA] + r;
  }
}
