/** cJSON_Minify: white space and comments are removed in place. */
module JsonMinify {
  import opened JsonText

  // ---- specification

  predicate IsBlank(b: byte) {
    b == SPACE || b == TAB || b == CARRIAGE_RETURN || b == LINE_FEED
  }

  /** What follows a // comment: its line feed is part of it. */
  function AfterLine(s: seq<byte>): (r: seq<byte>)
    ensures |r| <= |s|
  {
    if s == [] then [] else if s[0] == LINE_FEED then s[1..] else AfterLine(s[1..])
  }

  /** What follows a block comment. */
  function AfterBlock(s: seq<byte>): (r: seq<byte>)
    ensures |r| <= |s|
  {
    if s == [] then []
    else if s[0] == STAR && |s| > 1 && s[1] == SLASH then s[2..]
    else AfterBlock(s[1..])
  }

  /** The minified form of a text that starts outside, or inside, a string literal. */
  function Minified(s: seq<byte>, inString: bool): (r: seq<byte>)
    ensures |r| <= |s|
    decreases |s|
  {
    if s == [] then []
    else if inString then
      if s[0] == QUOTE then [QUOTE] + Minified(s[1..], false)
      else if s[0] == BACKSLASH && |s| > 1 && s[1] == QUOTE then [BACKSLASH, QUOTE] + Minified(s[2..], true)
      else [s[0]] + Minified(s[1..], true)
    else if IsBlank(s[0]) then Minified(s[1..], false)
    else if s[0] == SLASH then
      if |s| > 1 && s[1] == SLASH then Minified(AfterLine(s[2..]), false)
      else if |s| > 1 && s[1] == STAR then Minified(AfterBlock(s[2..]), false)
      else Minified(s[1..], false)
    else if s[0] == QUOTE then [QUOTE] + Minified(s[1..], true)
    else [s[0]] + Minified(s[1..], false)
  }

  // ---- the loops

  /** Texts end in NUL; `rest` is what is left of the original from the read position on. */
  ghost predicate Reads(json: array<byte>, read: nat, rest: seq<byte>)
    reads json
  {
    NulFree(rest) && read + |rest| < json.Length
    && json[read..read + |rest|] == rest && json[read + |rest|] == NUL
  }

  /** The bytes under the read position, and one step. */
  lemma ReadsNext(json: array<byte>, read: nat, rest: seq<byte>)
    requires Reads(json, read, rest)
    ensures read + |rest| < json.Length
    ensures rest == [] <==> json[read] == NUL
    ensures rest != [] ==> json[read] == rest[0] && Reads(json, read + 1, rest[1..])
    ensures rest != [] ==> json[read + 1] == if |rest| > 1 then rest[1] else NUL
    ensures |rest| > 1 ==> Reads(json, read + 2, rest[2..])
  {
    if rest != [] {
      assert json[read..read + |rest|][0] == rest[0];
      assert json[read + 1..read + |rest|] == rest[1..];
      if |rest| > 1 {
        assert json[read..read + |rest|][1] == rest[1];
        assert json[read + 2..read + |rest|] == rest[2..];
      }
    }
  }

  method SkipOnelineComment(json: array<byte>, start: nat, ghost rest: seq<byte>) returns (read: nat)
    requires Reads(json, start, rest) && |rest| >= 2
    ensures read + |AfterLine(rest[2..])| == start + |rest| && Reads(json, read, AfterLine(rest[2..]))
  {
    hide Reads;
    ReadsNext(json, start, rest);
    read := start + 2;
    ghost var left := rest[2..];
    ReadsNext(json, read, left);
    while json[read] != NUL
      invariant Reads(json, read, left) && AfterLine(left) == AfterLine(rest[2..])
      invariant read + |left| == start + |rest| && read < json.Length
      invariant rest != [] && (left == [] <==> json[read] == NUL)
      decreases |left|
    {
      ReadsNext(json, read, left);
      var b := json[read];
      read := read + 1;
      left := left[1..];
      ReadsNext(json, read, left);
      if b == LINE_FEED {
        return;
      }
    }
  }

  lemma BlockStep(s: seq<byte>)
    ensures AfterBlock(s) ==
            if s == [] then [] else if |s| > 1 && s[0] == STAR && s[1] == SLASH then s[2..] else AfterBlock(s[1..])
  {
  }

  method SkipMultilineComment(json: array<byte>, start: nat, ghost rest: seq<byte>) returns (read: nat)
    requires Reads(json, start, rest) && |rest| >= 2
    ensures read + |AfterBlock(rest[2..])| == start + |rest| && Reads(json, read, AfterBlock(rest[2..]))
  {
    hide Reads, AfterBlock;
    ReadsNext(json, start, rest);
    read := start + 2;
    ghost var left := rest[2..];
    ReadsNext(json, read, left);
    while json[read] != NUL
      invariant Reads(json, read, left) && AfterBlock(left) == AfterBlock(rest[2..])
      invariant read + |left| == start + |rest| && read < json.Length
      invariant left == [] <==> json[read] == NUL
      decreases |left|
    {
      ReadsNext(json, read, left);
      BlockStep(left);
      if json[read] == STAR && json[read + 1] == SLASH {
        read := read + 2;
        left := left[2..];
        return;
      }
      read := read + 1;
      left := left[1..];
      ReadsNext(json, read, left);
    }
    BlockStep(left);
  }

  /** Copies one byte down; what is still to be read, and what is already written, stays. */
  method CopyDown(json: array<byte>, read: nat, write: nat, ghost rest: seq<byte>)
    requires Reads(json, read, rest) && rest != [] && write <= read
    modifies json
    ensures json[..write + 1] == old(json[..write]) + [rest[0]]
    ensures Reads(json, read + 1, rest[1..])
    ensures read + |rest| < json.Length
  {
    ReadsNext(json, read, rest);
    json[write] := json[read];
    assert json[read + 1..read + |rest|] == old(json[read + 1..read + |rest|]);
  }

  method CopyDownTwo(json: array<byte>, read: nat, write: nat, ghost rest: seq<byte>)
    requires Reads(json, read, rest) && |rest| > 1 && write <= read
    modifies json
    ensures json[..write + 2] == old(json[..write]) + [rest[0], rest[1]]
    ensures Reads(json, read + 2, rest[2..])
    ensures read + |rest| < json.Length
  {
    hide Reads;
    CopyDown(json, read, write, rest);
    CopyDown(json, read + 1, write + 1, rest[1..]);
    assert rest[1..][1..] == rest[2..];
  }

  predicate EscapesQuote(rest: seq<byte>) {
    |rest| > 1 && rest[0] == BACKSLASH && rest[1] == QUOTE
  }

  /** How a string literal goes on: bytes move from the front of the rest to what is written. */
  lemma StringStep(written: seq<byte>, rest: seq<byte>)
    requires rest != []
    ensures EscapesQuote(rest) ==>
              (written + [rest[0], rest[1]]) + Minified(rest[2..], true) == written + Minified(rest, true)
    ensures !EscapesQuote(rest) ==>
              (written + [rest[0]]) + Minified(rest[1..], rest[0] != QUOTE) == written + Minified(rest, true)
  {
    if EscapesQuote(rest) {
      Associative(written, [rest[0], rest[1]], Minified(rest[2..], true));
    } else {
      Associative(written, [rest[0]], Minified(rest[1..], rest[0] != QUOTE));
    }
  }

  /** Copies what the string literal goes on with: an escaped quote, or one byte. */
  method CopyStringByte(json: array<byte>, start: nat, into: nat, ghost rest: seq<byte>)
    returns (read: nat, write: nat, closed: bool, ghost left: seq<byte>)
    requires Reads(json, start, rest) && rest != [] && into <= start
    modifies json
    ensures Reads(json, read, left) && into <= write <= read < json.Length
    ensures |left| < |rest| && read + |left| == start + |rest|
    ensures json[..write] + Minified(left, !closed) == old(json[..into]) + Minified(rest, true)
  {
    ReadsNext(json, start, rest);
    StringStep(json[..into], rest);
    hide Reads, Minified;
    closed := json[start] == QUOTE;
    if json[start] == BACKSLASH && json[start + 1] == QUOTE {
      CopyDownTwo(json, start, into, rest);
      read, write, left := start + 2, into + 2, rest[2..];
    } else {
      CopyDown(json, start, into, rest);
      read, write, left := start + 1, into + 1, rest[1..];
    }
  }

  /**
   * Copies a string literal down, from its opening quote to its closing quote or the end of the text.
   * The write position stays at or below the read position, so nothing unread is overwritten.
   */
  method MinifyString(json: array<byte>, start: nat, into: nat, ghost rest: seq<byte>)
    returns (read: nat, write: nat, ghost left: seq<byte>)
    requires Reads(json, start, rest) && rest != [] && rest[0] == QUOTE && into <= start
    modifies json
    ensures Reads(json, read, left) && into <= write <= read < json.Length
    ensures |left| < |rest| && read + |left| == start + |rest|
    ensures json[..write] + Minified(left, false) == old(json[..into]) + ([QUOTE] + Minified(rest[1..], true))
  {
    hide Reads, Minified;
    ReadsNext(json, start, rest);
    ghost var goal := json[..into] + ([QUOTE] + Minified(rest[1..], true));
    CopyDown(json, start, into, rest);
    read, write, left := start + 1, into + 1, rest[1..];
    Associative(old(json[..into]), [QUOTE], Minified(left, true));
    var closed := false;
    ReadsNext(json, read, left);
    while !closed && json[read] != NUL
      invariant Reads(json, read, left) && into <= write <= read < json.Length
      invariant read + |left| == start + |rest| && |left| < |rest|
      invariant left == [] <==> json[read] == NUL
      invariant json[..write] + Minified(left, !closed) == goal
      decreases |left|
    {
      read, write, closed, left := CopyStringByte(json, read, write, left);
      ReadsNext(json, read, left);
    }
    NothingLeft();
  }

  lemma NothingLeft()
    ensures Minified([], true) == [] && Minified([], false) == []
  {
  }

  /** Outside string literals. */
  lemma PlainStep(written: seq<byte>, rest: seq<byte>)
    requires rest != []
    ensures var m := Minified(rest, false);
            if IsBlank(rest[0]) then m == Minified(rest[1..], false)
            else if rest[0] == SLASH then
              m == if |rest| > 1 && rest[1] == SLASH then Minified(AfterLine(rest[2..]), false)
                   else if |rest| > 1 && rest[1] == STAR then Minified(AfterBlock(rest[2..]), false)
                   else Minified(rest[1..], false)
            else if rest[0] == QUOTE then m == [QUOTE] + Minified(rest[1..], true)
            else (written + [rest[0]]) + Minified(rest[1..], false) == written + m
  {
    hide AfterLine, AfterBlock;
    if !IsBlank(rest[0]) && rest[0] != SLASH && rest[0] != QUOTE {
      CopiedOutside(rest);
      Associative(written, [rest[0]], Minified(rest[1..], false));
    } else {
      SkippedOutside(rest);
    }
  }

  lemma CopiedOutside(rest: seq<byte>)
    requires rest != [] && !IsBlank(rest[0]) && rest[0] != SLASH && rest[0] != QUOTE
    ensures Minified(rest, false) == [rest[0]] + Minified(rest[1..], false)
  {
  }

  /** Blanks, comments and slashes are left out; a quote opens a literal. */
  lemma SkippedOutside(rest: seq<byte>)
    requires rest != []
    ensures var m := Minified(rest, false);
            if IsBlank(rest[0]) then m == Minified(rest[1..], false)
            else if rest[0] == SLASH then
              m == if |rest| > 1 && rest[1] == SLASH then Minified(AfterLine(rest[2..]), false)
                   else if |rest| > 1 && rest[1] == STAR then Minified(AfterBlock(rest[2..]), false)
                   else Minified(rest[1..], false)
            else rest[0] == QUOTE ==> m == [QUOTE] + Minified(rest[1..], true)
  {
    hide AfterLine, AfterBlock;
  }

  /** Skips a comment, or a slash that starts none. */
  method SkipSlash(json: array<byte>, start: nat, ghost rest: seq<byte>) returns (read: nat, ghost left: seq<byte>)
    requires Reads(json, start, rest) && rest != [] && rest[0] == SLASH
    ensures Minified(left, false) == Minified(rest, false)
    ensures Reads(json, read, left) && read + |left| == start + |rest| && start < read
  {
    hide Reads, Minified;
    ReadsNext(json, start, rest);
    PlainStep([], rest);
    if json[start + 1] == SLASH {
      read := SkipOnelineComment(json, start, rest);
      left := AfterLine(rest[2..]);
    } else if json[start + 1] == STAR {
      read := SkipMultilineComment(json, start, rest);
      left := AfterBlock(rest[2..]);
    } else {
      read := start + 1;
      left := rest[1..];
    }
  }

  /** Copies or skips what comes next. */
  method MinifyNext(json: array<byte>, start: nat, into: nat, ghost rest: seq<byte>)
    returns (read: nat, write: nat, ghost left: seq<byte>)
    requires Reads(json, start, rest) && rest != [] && into <= start
    modifies json
    ensures Reads(json, read, left) && into <= write <= read < json.Length
    ensures |left| < |rest| && read + |left| == start + |rest|
    ensures json[..write] + Minified(left, false) == old(json[..into]) + Minified(rest, false)
  {
    hide Reads, Minified, IsBlank;
    ReadsNext(json, start, rest);
    PlainStep(json[..into], rest);
    var b := json[start];
    if IsBlank(b) {
      read, write, left := start + 1, into, rest[1..];
    } else if b == SLASH {
      write := into;
      read, left := SkipSlash(json, start, rest);
    } else if b == QUOTE {
      read, write, left := MinifyString(json, start, into, rest);
    } else {
      CopyDown(json, start, into, rest);
      read, write, left := start + 1, into + 1, rest[1..];
    }
    ReadsNext(json, read, left);
  }

  /** `cJSON_Minify`: the array's text is replaced by its minified form, with its NUL. */
  method Minify(json: array<byte>, ghost text: seq<byte>)
    requires Reads(json, 0, text)
    modifies json
    ensures var m := Minified(text, false);
            |m| <= |text| && json[..|m|] == m && json[|m|] == NUL
  {
    hide Reads, Minified;
    var read: nat, into: nat := 0, 0;
    ghost var left := text;
    ReadsNext(json, 0, text);
    while json[read] != NUL
      invariant Reads(json, read, left) && into <= read && read + |left| == |text| < json.Length
      invariant left == [] <==> json[read] == NUL
      invariant json[..into] + Minified(left, false) == Minified(text, false)
      decreases |left|
    {
      read, into, left := MinifyNext(json, read, into, left);
      ReadsNext(json, read, left);
    }
    NothingLeft();
    json[into] := NUL;
  }
}
