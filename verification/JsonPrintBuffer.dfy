/** cJSON's printer: a tree of nodes written into a buffer that grows on demand. */
module JsonPrintBuffer {
  import opened JsonText
  import opened JsonValue
  import opened JsonUnparse
  import opened JsonNode

  // ---- printed text contains no NUL, so `strlen` finds its end

  lemma {:induction false} DigitsNulFree(n: nat)
    ensures NulFree(Digits(n))
  {
  }

  lemma {:induction false} EscapeTextNulFree(s: seq<byte>)
    requires NulFree(s)
    ensures NulFree(EscapeText(s))
  {
    if s != [] {
      EscapeTextNulFree(s[1..]);
      assert s[0] != NUL;
    }
  }

  lemma DecimalNulFree(n: int)
    ensures NulFree(Decimal(n))
  {
    DigitsNulFree(if n < 0 then -n else n);
  }

  lemma QuotedNulFree(s: seq<byte>)
    requires NulFree(s)
    ensures NulFree(Quoted(s))
  {
    hide EscapeText;
    EscapeTextNulFree(s);
  }

  lemma {:induction false} UnparseNulFree(v: Json, format: bool, depth: nat)
    requires Printable(v)
    ensures NulFree(Unparse(v, format, depth))
    decreases v, 1
  {
    hide UnparseItems, UnparseMembers, Quoted, Decimal;
    match v {
      case Null =>
      case False =>
      case True =>
      case Number(r) =>
        DecimalNulFree(ValueInt(r));
      case String(s) =>
        QuotedNulFree(s);
      case Array(items) =>
        UnparseItemsNulFree(items, format, depth + 1);
      case Object(members) =>
        UnparseMembersNulFree(members, format, depth + 1);
    }
  }

  lemma {:induction false} UnparseItemsNulFree(items: seq<Json>, format: bool, depth: nat)
    requires PrintableItems(items)
    ensures NulFree(UnparseItems(items, format, depth))
    decreases items, 0
  {
    hide Unparse;
    if items != [] {
      UnparseNulFree(items[0], format, depth);
      UnparseItemsNulFree(items[1..], format, depth);
    }
  }

  lemma {:induction false} UnparseMemberNulFree(m: Member, format: bool, depth: nat)
    requires NulFree(m.key) && Printable(m.value)
    ensures NulFree(UnparseMember(m, format, depth))
    decreases m, 2
  {
    hide Unparse, Quoted;
    QuotedNulFree(m.key);
    UnparseNulFree(m.value, format, depth);
  }

  lemma {:induction false} UnparseMembersNulFree(members: seq<Member>, format: bool, depth: nat)
    requires PrintableMembers(members)
    ensures NulFree(UnparseMembers(members, format, depth))
    decreases members, 0
  {
    hide UnparseMember;
    if members != [] {
      UnparseMemberNulFree(members[0], format, depth);
      UnparseMembersNulFree(members[1..], format, depth);
    }
  }

  class PrintBuffer {
    var buffer: array<byte>
    var length: nat
    var offset: nat
    var depth: nat
    const noalloc: bool
    const format: bool

    /** A buffer of the caller's (`cJSON_PrintPreallocated`) or one that may be replaced by a larger one. */
    constructor (buffer: array<byte>, noalloc: bool, format: bool)
      requires buffer.Length <= INT_MAX
      ensures this.buffer == buffer && offset == 0 && depth == 0 && this.noalloc == noalloc && this.format == format
      ensures Valid()
    {
      this.buffer, this.length := buffer, buffer.Length;
      this.noalloc, this.format := noalloc, format;
      offset, depth := 0, 0;
    }

    ghost predicate Valid()
      reads this`buffer, this`length, this`offset
    {
      buffer.Length == length <= INT_MAX && (if length == 0 then offset == 0 else offset < length)
    }

    /** The text printed so far. */
    ghost function Text(): (t: seq<byte>)
      requires Valid()
      reads this`buffer, this`length, this`offset, buffer
      ensures |t| == offset
    {
      buffer[..offset]
    }

    /** How large the buffer can get. */
    function Capacity(): nat
      reads this`length
    {
      if noalloc then length else INT_MAX
    }

    /** The buffer holds `before`, then t and a NUL; the offset may have been advanced into t already. */
    ghost predicate Wrote(before: seq<byte>, t: seq<byte>)
      requires Valid()
      reads this`buffer, this`length, this`offset, buffer
    {
      |before| <= offset <= |before + t| < length
      && buffer[..|before + t|] == before + t && buffer[|before + t|] == NUL
    }

    /** Room for `needed` more bytes and a NUL; what is in the buffer stays. */
    method Ensure(needed: nat) returns (ok: bool)
      requires Valid()
      modifies this`buffer, this`length
      ensures ok <==> old(offset) + needed + 1 <= old(Capacity())
      ensures Valid() && Capacity() == old(Capacity()) && (buffer == old(buffer) || (!noalloc && fresh(buffer)))
      ensures ok ==> offset + needed + 1 <= length
      ensures buffer[..offset] == old(buffer[..offset])
    {
      if length > 0 && offset >= length {
        return false;
      }
      if needed > INT_MAX {
        return false;
      }
      var total := needed + offset + 1;
      if total <= length {
        return true;
      }
      if noalloc {
        return false;
      }
      var newSize;
      if total > INT_MAX / 2 {
        if total <= INT_MAX {
          newSize := INT_MAX;
        } else {
          return false;
        }
      } else {
        newSize := total * 2;
      }
      var newBuffer := new byte[newSize];
      forall i | 0 <= i < length {
        newBuffer[i] := buffer[i];
      }
      buffer, length := newBuffer, newSize;
      assert buffer[..offset] == old(buffer[..offset]);
      ok := true;
    }

    /** `strlen` from the offset on: moves the offset behind the text just written. */
    method UpdateOffset(ghost before: seq<byte>, ghost t: seq<byte>)
      requires Valid() && Wrote(before, t) && NulFree(t)
      modifies this`offset
      ensures Valid() && Text() == before + t
    {
      var n := 0;
      ghost var end := |before + t|;
      assert forall k :: |before| <= k < end ==> buffer[k] == t[k - |before|];
      while buffer[offset + n] != NUL
        invariant offset + n <= end
        decreases end - n
      {
        n := n + 1;
      }
      offset := offset + n;
    }

    /** Reserves room, writes t and moves the offset behind it. */
    method Append(t: seq<byte>, needed: nat) returns (ok: bool)
      requires Valid() && |t| <= needed
      modifies this`buffer, this`length, this`offset, buffer
      ensures ok <==> old(offset) + needed + 1 <= old(Capacity())
      ensures Valid() && Capacity() == old(Capacity()) && (buffer == old(buffer) || (!noalloc && fresh(buffer)))
      ensures ok ==> Text() == old(Text()) + t
    {
      ok := Ensure(needed);
      if ok {
        Write(t);
        offset := offset + |t|;
      }
    }

    /** Reserves room and writes t and a NUL, but leaves the offset in front of them. */
    method AppendClosing(t: seq<byte>, needed: nat) returns (ok: bool)
      requires Valid() && |t| < needed
      modifies this`buffer, this`length, buffer
      ensures ok <==> old(offset) + needed + 1 <= old(Capacity())
      ensures Valid() && Capacity() == old(Capacity()) && (buffer == old(buffer) || (!noalloc && fresh(buffer)))
      ensures ok ==> Wrote(old(Text()), t)
    {
      ok := Ensure(needed);
      if ok {
        Write(t);
        buffer[offset + |t|] := NUL;
        assert buffer[..offset + |t|] == old(Text()) + t;
      }
    }

    /** Writes t at the offset, byte by byte. */
    method Write(t: seq<byte>)
      requires Valid() && offset + |t| < length
      modifies buffer
      ensures buffer[..offset + |t|] == old(Text()) + t
    {
      ghost var before := Text();
      var i := 0;
      while i < |t|
        invariant i <= |t|
        invariant buffer[..offset] == before
        invariant buffer[offset..offset + i] == t[..i]
      {
        buffer[offset + i] := t[i];
        i := i + 1;
      }
      assert t[..i] == t;
      assert buffer[..offset + i] == buffer[..offset] + buffer[offset..offset + i];
    }

    method PrintNumber(item: Node) returns (ok: bool)
      requires Valid() && IsInt(item.valuedouble) && item.valueint == ValueInt(item.valuedouble)
      modifies this`buffer, this`length, this`offset, buffer
      ensures ok <==> old(offset) + |Decimal(item.valueint)| + 2 <= old(Capacity())
      ensures Valid() && Capacity() == old(Capacity()) && (buffer == old(buffer) || (!noalloc && fresh(buffer)))
      ensures ok ==> Wrote(old(Text()), Decimal(item.valueint))
    {
      var number := Decimal(item.valueint);
      ok := AppendClosing(number, |number| + 1);
      if ok {
        offset := offset + |number|;
      }
    }

    /** How many bytes escaping adds. */
    method CountEscapes(s: seq<byte>) returns (escapes: nat)
      ensures |EscapeText(s)| == |s| + escapes
      ensures escapes == 0 ==> EscapeText(s) == s
    {
      escapes := 0;
      var i := 0;
      assert s[..0] == [];
      while i < |s|
        invariant i <= |s|
        invariant |EscapeText(s[..i])| == i + escapes
        invariant escapes == 0 ==> EscapeText(s[..i]) == s[..i]
      {
        EscapeTextSnoc(s, i);
        if s[i] == QUOTE || s[i] == BACKSLASH || s[i] == BACKSPACE || s[i] == FORM_FEED
           || s[i] == LINE_FEED || s[i] == CARRIAGE_RETURN || s[i] == TAB {
          escapes := escapes + 1;
        } else if s[i] < 32 {
          escapes := escapes + 5;
        }
        assert s[..i + 1] == s[..i] + [s[i]];
        i := i + 1;
      }
      assert s[..i] == s;
    }

    /** `sprintf` with "u%04x", without the NUL. */
    method WriteHex(b: byte, at: nat)
      requires at + 5 <= buffer.Length
      modifies buffer
      ensures buffer[..at + 5] == old(buffer[..at]) + [LOWER_U, ZERO, ZERO, LowerHex(b / 16), LowerHex(b % 16)]
    {
      buffer[at], buffer[at + 1], buffer[at + 2] := LOWER_U, ZERO, ZERO;
      buffer[at + 3], buffer[at + 4] := LowerHex(b / 16), LowerHex(b % 16);
    }

    /** Writes one byte of a string, escaped where needed; `end` is where the next one goes. */
    method WriteEscaped(b: byte, at: nat) returns (end: nat)
      requires at + |EscapeByte(b)| <= buffer.Length
      modifies buffer
      ensures end == at + |EscapeByte(b)| && buffer[..end] == old(buffer[..at]) + EscapeByte(b)
    {
      end := at;
      if b > 31 && b != QUOTE && b != BACKSLASH {
        buffer[end] := b;
      } else {
        buffer[end] := BACKSLASH;
        end := end + 1;
        if b == BACKSLASH {
          buffer[end] := BACKSLASH;
        } else if b == QUOTE {
          buffer[end] := QUOTE;
        } else if b == BACKSPACE {
          buffer[end] := LOWER_B;
        } else if b == FORM_FEED {
          buffer[end] := LOWER_F;
        } else if b == LINE_FEED {
          buffer[end] := LOWER_N;
        } else if b == CARRIAGE_RETURN {
          buffer[end] := LOWER_R;
        } else if b == TAB {
          buffer[end] := LOWER_T;
        } else {
          WriteHex(b, end);
          end := end + 4;
        }
      }
      end := end + 1;
    }

    method WriteEscapedText(s: seq<byte>, at: nat) returns (end: nat)
      requires at + |EscapeText(s)| <= buffer.Length
      modifies buffer
      ensures end == at + |EscapeText(s)| && buffer[..end] == old(buffer[..at]) + EscapeText(s)
    {
      hide EscapeByte;
      ghost var before := buffer[..at];
      end := at;
      var i := 0;
      assert s[..0] == [] && EscapeText([]) == [];
      while i < |s|
        invariant i <= |s|
        invariant end == at + |EscapeText(s[..i])| && end + |EscapeText(s[i..])| == at + |EscapeText(s)|
        invariant buffer[..end] == before + EscapeText(s[..i])
      {
        EscapeTextSnoc(s, i);
        Associative(before, EscapeText(s[..i]), EscapeByte(s[i]));
        assert s[i..][1..] == s[i + 1..];
        end := WriteEscaped(s[i], end);
        i := i + 1;
      }
      assert s[..i] == s;
    }

    method PrintString(text: CharPointer) returns (ok: bool)
      requires Valid()
      modifies this`buffer, this`length, buffer
      ensures var t := Quoted(if text.NoChars? then [] else text.chars);
              (ok <==> old(offset) + |t| + 2 <= old(Capacity()))
              && Valid() && Capacity() == old(Capacity()) && (buffer == old(buffer) || (!noalloc && fresh(buffer)))
              && (ok ==> Wrote(old(Text()), t))
    {
      hide EscapeText;
      if text == NoChars {
        EscapeNothing();
        ok := AppendClosing([QUOTE, QUOTE], 3);
        assert Quoted([]) == [QUOTE, QUOTE];
        return;
      }
      var s := text.chars;
      var escapes := CountEscapes(s);
      var outputLength := |s| + escapes;
      ok := Ensure(outputLength + 3);
      if !ok {
        return;
      }
      WriteQuoted(s, escapes);
    }

    /** The quotes and what is between them, in a reservation that is large enough. */
    method WriteQuoted(s: seq<byte>, escapes: nat)
      requires |EscapeText(s)| == |s| + escapes && (escapes == 0 ==> EscapeText(s) == s)
      requires Valid() && offset + |s| + escapes + 2 < length
      modifies buffer
      ensures Wrote(old(Text()), Quoted(s))
    {
      hide EscapeText;
      ghost var before := Text();
      buffer[offset] := QUOTE;
      assert buffer[..offset + 1] == before + [QUOTE];
      var end;
      if escapes == 0 {
        end := WriteRaw(s, offset + 1);
      } else {
        end := WriteEscapedText(s, offset + 1);
      }
      buffer[end] := QUOTE;
      assert buffer[..end + 1] == before + [QUOTE] + EscapeText(s) + [QUOTE];
      buffer[end + 1] := NUL;
      QuotedIsOneText(before, s);
      assert |before + Quoted(s)| == end + 1;
    }

    method WriteRaw(s: seq<byte>, at: nat) returns (end: nat)
      requires at + |s| <= buffer.Length
      modifies buffer
      ensures end == at + |s| && buffer[..end] == old(buffer[..at]) + s
    {
      ghost var before := buffer[..at];
      var i := 0;
      while i < |s|
        invariant i <= |s| && buffer[..at] == before && buffer[at..at + i] == s[..i]
      {
        buffer[at + i] := s[i];
        i := i + 1;
      }
      end := at + i;
      assert s[..i] == s && buffer[..end] == buffer[..at] + buffer[at..end];
    }

    /** Prints the value of a node; succeeds exactly if the text and two more bytes fit. */
    method PrintValue(item: Node, ghost v: Json) returns (ok: bool)
      requires Valid() && item.Holds(v) && Printable(v)
      modifies this, buffer
      ensures ok <==> old(offset) + |Unparse(v, format, old(depth))| + 2 <= old(Capacity())
      ensures Valid() && Capacity() == old(Capacity()) && (buffer == old(buffer) || (!noalloc && fresh(buffer)))
      ensures ok ==> depth == old(depth) && Wrote(old(Text()), Unparse(v, format, depth))
      decreases v, 1
    {
      hide UnparseItems, UnparseMembers, Quoted, Decimal, Wrote;
      match item.kind {
        case NullKind => ok := AppendClosing(NULL_WORD, 5);
        case FalseKind => ok := AppendClosing(FALSE_WORD, 6);
        case TrueKind => ok := AppendClosing(TRUE_WORD, 5);
        case NumberKind => ok := PrintNumber(item);
        case StringKind => ok := PrintString(item.valuestring);
        case ArrayKind => ok := PrintArray(item, v.items);
        case ObjectKind => ok := PrintObject(item, v.members);
        case InvalidKind => ok := false;
      }
    }

    /** Prints a value and moves the offset behind it. */
    method PrintAndAdvance(item: Node, ghost v: Json) returns (ok: bool)
      requires Valid() && item.Holds(v) && Printable(v)
      modifies this, buffer
      ensures ok <==> old(offset) + |Unparse(v, format, old(depth))| + 2 <= old(Capacity())
      ensures Valid() && Capacity() == old(Capacity()) && (buffer == old(buffer) || (!noalloc && fresh(buffer)))
      ensures ok ==> depth == old(depth) && Text() == old(Text()) + Unparse(v, format, depth)
      decreases v, 2
    {
      hide Unparse, Wrote;
      ok := PrintValue(item, v);
      if ok {
        UnparseNulFree(v, format, depth);
        UpdateOffset(old(Text()), Unparse(v, format, depth));
      }
    }

    method PrintArray(item: Node, ghost items: seq<Json>) returns (ok: bool)
      requires Valid() && item.Holds(Array(items)) && PrintableItems(items)
      modifies this, buffer
      ensures ok <==> old(offset) + |Unparse(Array(items), format, old(depth))| + 2 <= old(Capacity())
      ensures Valid() && Capacity() == old(Capacity()) && (buffer == old(buffer) || (!noalloc && fresh(buffer)))
      ensures ok ==> depth == old(depth) && Wrote(old(Text()), Unparse(Array(items), format, depth))
      decreases items, 1
    {
      hide Unparse, UnparseItems, Wrote, Text, PrintableItems, Node.Holds;
      ghost var before, all := Text(), UnparseItems(items, format, depth + 1);
      ArrayText(items, format, depth);
      ok := Append([LBRACKET], 1);
      if !ok {
        return;
      }
      depth := depth + 1;
      ok := PrintElements(item, items);
      if !ok {
        return;
      }
      Associative(before, [LBRACKET], all);
      ok := AppendBehind(before, [LBRACKET] + all, [RBRACKET], 2);
      depth := depth - 1;
    }

    /** The elements of an array, separated by commas. */
    method PrintElements(item: Node, ghost items: seq<Json>) returns (ok: bool)
      requires Valid() && item.Holds(Array(items)) && PrintableItems(items)
      modifies this, buffer
      ensures Valid() && Capacity() == old(Capacity()) && (buffer == old(buffer) || (!noalloc && fresh(buffer)))
      ensures ok ==> depth == old(depth) && Text() == old(Text()) + UnparseItems(items, format, depth)
      ensures !ok ==> old(offset) + |UnparseItems(items, format, old(depth))| + 2 > old(Capacity())
      decreases items, 0
    {
      hide Unparse, UnparseItems, Text, PrintableItems, Node.Holds;
      ok := true;
      ghost var before, all := Text(), UnparseItems(items, format, depth);
      ArrayKids(item, items);
      var current := item.child;
      ghost var i := 0;
      assert items[0..] == items;
      while current != null
        invariant i <= |items| && current == (if i < |items| then item.kids[i] else null)
        invariant item.Holds(Array(items)) && PrintableItems(items[i..])
        invariant Valid() && Capacity() == old(Capacity()) && (buffer == old(buffer) || (!noalloc && fresh(buffer)))
        invariant ok && depth == old(depth)
        invariant Text() + UnparseItems(items[i..], format, depth) == before + all
        decreases |items| - i
      {
        ItemsUnfold(items, i, format, depth);
        ghost var text, last := Text(), i + 1 == |items|;
        ArrayKids(item, items);
        ok := PrintElement(current, items[i], last);
        AssociativeFour(text, Unparse(items[i], format, old(depth)), Separator(last, format),
                   UnparseItems(items[i + 1..], format, old(depth)));
        if !ok {
          return;
        }
        current := current.next;
        i := i + 1;
      }
      NoItemsLeft(items[i..], format, depth);
    }

    /** One element, and the comma behind it unless it is the last. */
    method PrintElement(item: Node, ghost v: Json, ghost last: bool) returns (ok: bool)
      requires Valid() && item.Holds(v) && Printable(v) && last == (item.next == null)
      modifies this, buffer
      ensures Valid() && Capacity() == old(Capacity()) && (buffer == old(buffer) || (!noalloc && fresh(buffer)))
      ensures ok ==> depth == old(depth) && Text() == old(Text()) + Unparse(v, format, depth) + Separator(last, format)
      ensures !ok ==> old(offset) + |Unparse(v, format, old(depth))| + |Separator(last, format)| + 2 > old(Capacity())
      decreases v, 3
    {
      hide Unparse, Wrote;
      ok := PrintAndAdvance(item, v);
      if ok && item.next != null {
        var separator := if format then [COMMA, SPACE] else [COMMA];
        ok := Append(separator, |separator| + 1);
      }
    }

    lemma WroteBoth(before: seq<byte>, a: seq<byte>, b: seq<byte>)
      requires Valid() && Wrote(before + a, b)
      ensures Wrote(before, a + b)
    {
      Associative(before, a, b);
    }

    /** The end of a text whose beginning has been printed already. */
    method AppendBehind(ghost before: seq<byte>, ghost a: seq<byte>, t: seq<byte>, needed: nat) returns (ok: bool)
      requires Valid() && |t| < needed && Text() == before + a
      modifies this`buffer, this`length, buffer
      ensures ok <==> old(offset) + needed + 1 <= old(Capacity())
      ensures Valid() && Capacity() == old(Capacity()) && (buffer == old(buffer) || (!noalloc && fresh(buffer)))
      ensures ok ==> Wrote(before, a + t)
    {
      hide Wrote, Text;
      ok := AppendClosing(t, needed);
      if ok {
        WroteBoth(before, a, t);
      }
    }

    method PrintObject(item: Node, ghost members: seq<Member>) returns (ok: bool)
      requires Valid() && item.Holds(Object(members)) && PrintableMembers(members)
      modifies this, buffer
      ensures ok <==> old(offset) + |Unparse(Object(members), format, old(depth))| + 2 <= old(Capacity())
      ensures Valid() && Capacity() == old(Capacity()) && (buffer == old(buffer) || (!noalloc && fresh(buffer)))
      ensures ok ==> depth == old(depth) && Wrote(old(Text()), Unparse(Object(members), format, depth))
      decreases members, 1
    {
      hide Unparse, UnparseMembers, Wrote, Text, PrintableMembers, Node.Holds, Indent;
      ghost var before, all := Text(), UnparseMembers(members, format, depth + 1);
      var open := if format then [LBRACE, LINE_FEED] else [LBRACE];
      ObjectText(members, format, depth);
      ok := Append(open, |open| + 1);
      if !ok {
        return;
      }
      depth := depth + 1;
      ok := PrintMembers(item, members);
      if !ok {
        return;
      }
      Associative(before, open, all);
      ok := PrintClosingBrace(before, open + all);
      depth := depth - 1;
    }

    /** The indentation one level up and the brace. */
    method PrintClosingBrace(ghost before: seq<byte>, ghost a: seq<byte>) returns (ok: bool)
      requires Valid() && depth > 0 && Text() == before + a
      modifies this`buffer, this`length, buffer
      ensures ok <==> old(offset) + |Indent(format, depth - 1)| + 3 <= old(Capacity())
      ensures Valid() && Capacity() == old(Capacity()) && (buffer == old(buffer) || (!noalloc && fresh(buffer)))
      ensures ok ==> Wrote(before, a + (Indent(format, depth - 1) + [RBRACE]))
    {
      hide Wrote, Text;
      var close := (if format then seq(depth - 1, _ => TAB) else []) + [RBRACE];
      ok := AppendBehind(before, a, close, if format then depth + 1 else 2);
    }

    /** The members of an object, one to a line if formatted. */
    method PrintMembers(item: Node, ghost members: seq<Member>) returns (ok: bool)
      requires Valid() && item.Holds(Object(members)) && PrintableMembers(members)
      modifies this, buffer
      ensures Valid() && Capacity() == old(Capacity()) && (buffer == old(buffer) || (!noalloc && fresh(buffer)))
      ensures ok ==> depth == old(depth) && Text() == old(Text()) + UnparseMembers(members, format, depth)
      ensures !ok ==> old(offset) + |UnparseMembers(members, format, old(depth))| + 2 > old(Capacity())
      decreases members, 0
    {
      hide Unparse, UnparseMember, UnparseMembers, Text, PrintableMembers, Ending, Node.Holds, Node.Family;
      ok := true;
      ghost var before, all := Text(), UnparseMembers(members, format, depth);
      ObjectKids(item, members);
      var current := item.child;
      ghost var i := 0;
      assert members[0..] == members;
      while current != null
        invariant i <= |members| && current == (if i < |members| then item.kids[i] else null)
        invariant item.Holds(Object(members)) && PrintableMembers(members[i..])
        invariant Valid() && Capacity() == old(Capacity()) && (buffer == old(buffer) || (!noalloc && fresh(buffer)))
        invariant ok && depth == old(depth)
        invariant Text() + UnparseMembers(members[i..], format, depth) == before + all
        decreases |members| - i
      {
        MembersUnfold(members, i, format, depth);
        ghost var text, last := Text(), i + 1 == |members|;
        ObjectKids(item, members);
        ok := PrintMember(current, members[i], last);
        AssociativeFour(text, UnparseMember(members[i], format, old(depth)), Ending(last, format),
                   UnparseMembers(members[i + 1..], format, old(depth)));
        if !ok {
          return;
        }
        current := current.next;
        i := i + 1;
      }
      NoMembersLeft(members[i..], format, depth);
    }

    /** One member of an object, with the comma and the line break behind it. */
    method PrintMember(item: Node, ghost m: Member, ghost last: bool) returns (ok: bool)
      requires Valid() && item.name == Chars(m.key) && item.Holds(m.value) && NulFree(m.key) && Printable(m.value)
      requires last == (item.next == null)
      modifies this, buffer
      ensures Valid() && Capacity() == old(Capacity()) && (buffer == old(buffer) || (!noalloc && fresh(buffer)))
      ensures ok ==>
                depth == old(depth) && Text() == old(Text()) + UnparseMember(m, format, depth) + Ending(last, format)
      ensures !ok ==>
                old(offset) + |UnparseMember(m, format, old(depth))| + |Ending(last, format)| + 2 > old(Capacity())
      decreases m, 3
    {
      hide Unparse, Quoted, Wrote, Text, Indent, Layout, Ending, Node.Holds;
      ok := PrintKey(item.name, m.key);
      if !ok {
        return;
      }
      ok := PrintAndAdvance(item, m.value);
      if !ok {
        return;
      }
      ok := PrintEnding(item, last);
    }

    /** A comma if another member follows, and a line break if formatted. */
    method PrintEnding(item: Node, ghost last: bool) returns (ok: bool)
      requires Valid() && last == (item.next == null)
      modifies this`buffer, this`length, this`offset, buffer
      ensures Valid() && Capacity() == old(Capacity()) && (buffer == old(buffer) || (!noalloc && fresh(buffer)))
      ensures ok ==> Text() == old(Text()) + Ending(last, format)
      ensures !ok ==> old(offset) + |Ending(last, format)| + 2 > old(Capacity())
    {
      var ending := (if item.next != null then [COMMA] else []) + (if format then [LINE_FEED] else []);
      ok := Append(ending, |ending| + 1);
    }

    /** The indentation, the key and the colon. */
    method PrintKey(name: CharPointer, ghost key: seq<byte>) returns (ok: bool)
      requires Valid() && name == Chars(key) && NulFree(key)
      modifies this`buffer, this`length, this`offset, buffer
      ensures Valid() && Capacity() == old(Capacity()) && (buffer == old(buffer) || (!noalloc && fresh(buffer)))
      ensures ok ==> Text() == old(Text()) + Indent(format, depth) + Quoted(key) + ([COLON] + Layout(format, TAB))
      ensures !ok ==>
                old(offset) + |Indent(format, depth)| + |Quoted(key)| + 1 + |Layout(format, TAB)| + 2 > old(Capacity())
    {
      hide Quoted, Wrote;
      if format {
        var tabs := seq(depth, _ => TAB);
        ok := Append(tabs, depth);
        if !ok {
          return;
        }
      }
      ghost var before := Text();
      assert before == old(Text()) + Indent(format, depth);
      ok := PrintString(name);
      if !ok {
        return;
      }
      QuotedNulFree(key);
      UpdateOffset(before, Quoted(key));
      var colon := if format then [COLON, TAB] else [COLON];
      ok := Append(colon, |colon|);
    }
  }

  lemma ItemsUnfold(items: seq<Json>, i: nat, format: bool, depth: nat)
    requires i < |items| && PrintableItems(items[i..])
    ensures Printable(items[i]) && PrintableItems(items[i + 1..])
    ensures UnparseItems(items[i..], format, depth)
         == Unparse(items[i], format, depth)
            + Separator(i + 1 == |items|, format)
            + UnparseItems(items[i + 1..], format, depth)
  {
    hide Unparse;
    assert items[i..][1..] == items[i + 1..];
    assert [COMMA] + [SPACE] == [COMMA, SPACE];
    assert [COMMA] + [] == [COMMA];
  }

  function Separator(last: bool, format: bool): seq<byte> {
    if last then [] else if format then [COMMA, SPACE] else [COMMA]
  }

  lemma ArrayText(items: seq<Json>, format: bool, depth: nat)
    requires PrintableItems(items)
    ensures Unparse(Array(items), format, depth) == [LBRACKET] + UnparseItems(items, format, depth + 1) + [RBRACKET]
    ensures |Unparse(Array(items), format, depth)| == |UnparseItems(items, format, depth + 1)| + 2
  {
    hide UnparseItems;
  }

  /** What follows the value of a member. */
  function Ending(last: bool, format: bool): seq<byte> {
    (if last then [] else [COMMA]) + Layout(format, LINE_FEED)
  }

  lemma ObjectText(members: seq<Member>, format: bool, depth: nat)
    requires PrintableMembers(members)
    ensures Unparse(Object(members), format, depth)
         == (if format then [LBRACE, LINE_FEED] else [LBRACE])
            + UnparseMembers(members, format, depth + 1)
            + (Indent(format, depth) + [RBRACE])
    ensures |Unparse(Object(members), format, depth)|
         == |UnparseMembers(members, format, depth + 1)| + |Indent(format, depth)| + if format then 3 else 2
  {
    hide UnparseMembers;
    assert [LBRACE] + [LINE_FEED] == [LBRACE, LINE_FEED];
    assert [LBRACE] + [] == [LBRACE];
  }

  lemma MembersUnfold(members: seq<Member>, i: nat, format: bool, depth: nat)
    requires i < |members| && PrintableMembers(members[i..])
    ensures NulFree(members[i].key) && Printable(members[i].value) && PrintableMembers(members[i + 1..])
    ensures UnparseMembers(members[i..], format, depth)
         == UnparseMember(members[i], format, depth)
            + Ending(i + 1 == |members|, format)
            + UnparseMembers(members[i + 1..], format, depth)
  {
    hide UnparseMember;
    assert members[i..][1..] == members[i + 1..];
    if i + 1 == |members| {
      assert Ending(true, format) == Layout(format, LINE_FEED);
    }
  }

  lemma NoMembersLeft(members: seq<Member>, format: bool, depth: nat)
    requires members == []
    ensures UnparseMembers(members, format, depth) == []
  {
  }

  lemma NoItemsLeft(items: seq<Json>, format: bool, depth: nat)
    requires items == []
    ensures UnparseItems(items, format, depth) == []
  {
  }

  lemma QuotedIsOneText(before: seq<byte>, s: seq<byte>)
    ensures before + [QUOTE] + EscapeText(s) + [QUOTE] == before + Quoted(s)
  {
    hide EscapeText;
    Associative(before, [QUOTE], EscapeText(s));
    Associative(before, [QUOTE] + EscapeText(s), [QUOTE]);
  }

  lemma EscapeNothing()
    ensures EscapeText([]) == []
  {
  }

  lemma {:induction false} EscapeTextSnoc(s: seq<byte>, i: nat)
    requires i < |s|
    ensures EscapeText(s[..i + 1]) == EscapeText(s[..i]) + EscapeByte(s[i])
    decreases i
  {
    hide EscapeByte;
    if i == 0 {
      assert s[..1] == [s[0]] && s[..0] == [];
      assert EscapeText([s[0]]) == EscapeByte(s[0]) + EscapeText([]);
    } else {
      EscapeTextSnoc(s[1..], i - 1);
      assert s[..i + 1][1..] == s[1..][..i] && s[..i][1..] == s[1..][..i - 1];
      Associative(EscapeByte(s[0]), EscapeText(s[..i][1..]), EscapeByte(s[i]));
    }
  }
}
