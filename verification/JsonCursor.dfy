/** cJSON's parser: a cursor over a NUL-terminated text that builds a tree of nodes. */
module JsonCursor {
  import opened JsonText
  import opened JsonValue
  import opened JsonParse
  import opened JsonEscape
  import opened JsonNode

  // ---- specification of the loops: what has been read, then what the rest yields

  function AfterBytes(bytes: seq<byte>, rest: UnescapeResult): UnescapeResult {
    if rest.BadAt? then rest else Unescaped(bytes + rest.bytes)
  }

  function AfterItems(items: seq<Json>, rest: ItemsResult): ItemsResult {
    if rest.NoItems? then rest else Items(items + rest.items, rest.pos)
  }

  function AfterMembers(members: seq<Member>, rest: MembersResult): MembersResult {
    if rest.NoMembers? then rest else Members(members + rest.members, rest.pos)
  }

  function AfterEscapes(skipped: nat, rest: ScanResult): ScanResult {
    if rest.Unclosed? then rest else Closed(rest.end, rest.escapes + skipped)
  }

  /** An escape ahead takes two bytes of the literal, so the estimate leaves room for what is still to come. */
  lemma {:induction false} EscapesTakeTwo(c: seq<byte>, p: nat)
    requires p <= |c|
    ensures Scan(c, p).Closed? ==> 2 * Scan(c, p).escapes <= Scan(c, p).end - p
    decreases |c| - p
  {
    if p < |c| && c[p] != QUOTE {
      if c[p] != BACKSLASH {
        EscapesTakeTwo(c, p + 1);
      } else if p + 1 < |c| {
        EscapesTakeTwo(c, p + 2);
      }
    }
  }

  class ParseBuffer {
    const content: seq<byte>
    var offset: nat
    var depth: nat

    constructor (content: seq<byte>)
      ensures this.content == content && offset == 0 && depth == 0
    {
      this.content := content;
      offset, depth := 0, 0;
    }

    /** The text ends in NUL and the cursor is on one of its bytes. */
    predicate Valid()
      reads this
    {
      |content| > 0 && content[|content| - 1] == NUL && offset < |content|
    }

    method SkipWhitespace()
      requires Valid()
      modifies this`offset
      ensures Valid() && offset == Skip(content, old(offset))
    {
      while offset < |content| && content[offset] <= SPACE
        invariant offset <= |content|
        invariant FirstNonBlank(content, offset) == FirstNonBlank(content, old(offset))
        decreases |content| - offset
      {
        offset := offset + 1;
      }
      if offset == |content| {
        offset := offset - 1;
      }
    }

    method SkipByteOrderMark()
      requires Valid() && offset == 0
      modifies this`offset
      ensures Valid() && offset == SkipMark(content)
    {
      if offset + 4 < |content| && content[0] == 0xEF && content[1] == 0xBB && content[2] == 0xBF {
        offset := offset + 3;
      }
    }

    /** Copies the bytes of a number into the temporary buffer. */
    method CopyNumber(buffer: array<byte>) returns (i: nat)
      requires Valid() && buffer.Length == NUMBER_BUFFER + 1
      modifies buffer
      ensures i <= NUMBER_BUFFER && buffer[..i] == NumberRun(content, offset, NUMBER_BUFFER)
    {
      hide NumberRun;
      i := 0;
      while i < NUMBER_BUFFER && offset + i < |content| && IsNumberByte(content[offset + i])
        invariant i <= NUMBER_BUFFER && offset + i <= |content|
        invariant buffer[..i] == content[offset..offset + i]
        invariant forall k :: offset <= k < offset + i ==> IsNumberByte(content[k])
      {
        buffer[i] := content[offset + i];
        i := i + 1;
      }
      buffer[i] := NUL;
      NumberRunIs(content, offset, NUMBER_BUFFER, i);
    }

    method ParseNumber(item: Node) returns (ok: bool)
      requires Valid()
      modifies this`offset, item`kind, item`valueint, item`valuedouble
      ensures var r := JsonParse.ParseNumber(content, old(offset));
              Valid() && ok == r.Parsed? && offset == r.pos
              && (ok && item in item.repr && item.Childless() ==> item.Holds(r.value))
    {
      hide Strtod, NumberRun;
      NumberEndsBeforeNul(content, offset);
      var buffer := new byte[NUMBER_BUFFER + 1];
      var i := CopyNumber(buffer);
      var (length, number) := Strtod(buffer[..i]);
      if length == 0 {
        return false;
      }
      item.valuedouble := number;
      item.valueint := ValueInt(number);
      item.kind := NumberKind;
      offset := offset + length;
      return true;
    }

    method ParseHex4(p: nat) returns (h: nat)
      requires p + 4 <= |content|
      ensures h == Hex4(content[p..p + 4])
      ensures ReadAs(content[p..p + 4], h)
    {
      HexIsSpelled(content[p..p + 4]);
      h := 0;
      ghost var digits := content[p..p + 4];
      var i := 0;
      while i < 4
        invariant i <= 4
        invariant forall j :: 0 <= j < i ==> HexDigit(digits[j]) >= 0
        invariant i == 0 ==> h == 0
        invariant i == 1 ==> h == 0x10 * HexDigit(digits[0])
        invariant i == 2 ==> h == 0x100 * HexDigit(digits[0]) + 0x10 * HexDigit(digits[1])
        invariant i == 3 ==>
                    h == 0x1000 * HexDigit(digits[0]) + 0x100 * HexDigit(digits[1]) + 0x10 * HexDigit(digits[2])
        invariant i == 4 ==> h == 0x1000 * HexDigit(digits[0]) + 0x100 * HexDigit(digits[1])
                                  + 0x10 * HexDigit(digits[2]) + HexDigit(digits[3])
      {
        var d := HexDigit(content[p + i]);
        assert digits[i] == content[p + i];
        if d < 0 {
          return 0;
        }
        h := h + d;
        if i < 3 {
          h := 0x10 * h;
        }
        i := i + 1;
      }
    }

    /** Writes the UTF-8 form of a code point, last byte first. */
    method WriteUtf8(code: nat, output: array<byte>, at: nat) returns (length: nat)
      requires code <= 0x10_FFFF && at + |Utf8(code)| <= output.Length
      modifies output
      ensures length == |Utf8(code)|
      ensures output[..at + length] == old(output[..at]) + Utf8(code)
    {
      hide Utf8, Continuation, Shifted;
      var rest, mark := code, 0;
      if code < 0x80 {
        length := 1;
      } else if code < 0x800 {
        length, mark := 2, 0xC0;
      } else if code < 0x1_0000 {
        length, mark := 3, 0xE0;
      } else {
        length, mark := 4, 0xF0;
      }
      ghost var u := Utf8(code);
      Utf8Bytes(code);
      var position := length - 1;
      while position > 0
        invariant 0 <= position < length
        invariant rest == Shifted(code, length - 1 - position)
        invariant forall i :: 0 <= i < at ==> output[i] == old(output[i])
        invariant forall i :: position < i < length ==> output[at + i] == u[i]
      {
        output[at + position] := Continuation(rest);
        rest := rest / 0x40;
        position := position - 1;
      }
      output[at] := (if length > 1 then rest + mark else rest) as byte;
      assert output[..at + length] == old(output[..at]) + u;
    }

    /** Decodes the escape \\uXXXX, or a surrogate pair of them, that starts at p. */
    method Utf16LiteralToUtf8(p: nat, end: nat, output: array<byte>, at: nat) returns (sequence: nat, length: nat)
      requires p <= end < |content|
      requires var e := Utf16Escape(content, p, end); e.Escape? ==> at + |e.bytes| <= output.Length
      modifies output
      ensures var e := Utf16Escape(content, p, end);
              if e.BadEscape? then sequence == 0 && output[..] == old(output[..])
              else sequence == e.length && length == |e.bytes| && output[..at + length] == old(output[..at]) + e.bytes
    {
      hide Utf8, Hex4, ReadAs;
      length := 0;
      if end - p < 6 {
        return 0, 0;
      }
      var first := ParseHex4(p + 2);
      var code := first;
      if 0xDC00 <= first <= 0xDFFF {
        return 0, 0;
      }
      sequence := 6;
      if 0xD800 <= first <= 0xDBFF {
        if end - p < 12 || content[p + 6] != BACKSLASH || content[p + 7] != LOWER_U {
          return 0, 0;
        }
        var second := ParseHex4(p + 8);
        if second < 0xDC00 || second > 0xDFFF {
          return 0, 0;
        }
        sequence := 12;
        code := 0x1_0000 + first % 0x400 * 0x400 + second % 0x400;
      }
      length := WriteUtf8(code, output, at);
    }

    /** The escape that starts at p, written to the buffer. */
    method DecodeEscape(p: nat, end: nat, output: array<byte>, at: nat) returns (sequence: nat, length: nat)
      requires p < end < |content| && content[p] == BACKSLASH
      requires var e := EscapeAt(content, p, end); e.Escape? ==> at + |e.bytes| <= output.Length
      modifies output
      ensures var e := EscapeAt(content, p, end);
              if e.BadEscape? then sequence == 0
              else sequence == e.length && length == |e.bytes| && output[..at + length] == old(output[..at]) + e.bytes
    {
      sequence, length := 2, 1;
      var b := content[p + 1];
      if b == LOWER_B {
        output[at] := BACKSPACE;
      } else if b == LOWER_F {
        output[at] := FORM_FEED;
      } else if b == LOWER_N {
        output[at] := LINE_FEED;
      } else if b == LOWER_R {
        output[at] := CARRIAGE_RETURN;
      } else if b == LOWER_T {
        output[at] := TAB;
      } else if b == QUOTE || b == BACKSLASH || b == SLASH {
        output[at] := b;
      } else if b == LOWER_U {
        sequence, length := Utf16LiteralToUtf8(p, end, output, at);
      } else {
        sequence := 0;
      }
    }

    /** First pass over a string literal: finds the closing quote and counts the escapes. */
    method ScanLiteral(start: nat) returns (closed: bool, end: nat, skipped: nat)
      requires start <= |content|
      ensures closed == Scan(content, start).Closed?
      ensures closed ==> Scan(content, start) == Closed(end, skipped)
    {
      end, skipped := start, 0;
      while end < |content| && content[end] != QUOTE
        invariant start <= end <= |content|
        invariant Scan(content, start) == AfterEscapes(skipped, Scan(content, end))
        decreases |content| - end
      {
        if content[end] == BACKSLASH {
          if end + 1 >= |content| {
            return false, end, skipped;
          }
          skipped := skipped + 1;
          end := end + 1;
        }
        end := end + 1;
      }
      closed := end < |content|;
    }

    /** One byte of the literal, behind the bytes already written. */
    method CopyByte(p: nat, output: array<byte>, length: nat)
      requires p < |content| && length < output.Length
      modifies output
      ensures output[..length + 1] == old(output[..length]) + [content[p]]
    {
      output[length] := content[p];
    }

    /**
     * Second pass: unescapes into a buffer of the estimated size. Every write is inside the buffer,
     * although malformed digits can put this pass out of step with the first.
     */
    method UnescapeLiteral(start: nat, end: nat, skipped: nat, output: array<byte>)
      returns (ok: bool, p: nat, length: nat)
      requires start <= |content| && Scan(content, start) == Closed(end, skipped)
      requires output.Length == end - start - skipped + 2
      modifies output
      ensures match Unescape(content, start, end)
              case BadAt(pos) => !ok && p == pos
              case Unescaped(bytes) =>
                ok && length <= end - start - skipped && output[..length] == bytes && output[length] == NUL
    {
      hide Unescape, EscapeAt, Scan, InStep, AfterBytes;
      NoBytesYet(Unescape(content, start, end));
      p, length := start, 0;
      ghost var hidden := false;
      ghost var left: nat := skipped;
      StartInStep(content, start);
      while p < end
        invariant start <= p <= end + 1 && length + (skipped - left) <= (if p <= end then p else end) - start
        invariant left <= skipped && (p > end ==> left == 0)
        invariant p <= end ==> InStep(content, p, hidden, end, left) && (hidden ==> p < end)
        invariant p <= end ==> 2 * left <= end - p
        invariant Unescape(content, start, end) == AfterBytes(output[..length], Unescape(content, p, end))
        decreases end - p
      {
        ghost var before := output[..length];
        if content[p] != BACKSLASH {
          UnescapeCopy(content, p, hidden, end, left, before);
          CopyByte(p, output, length);
          length := length + 1;
          hidden := false;
          p := p + 1;
        } else {
          ghost var hidden', left' := UnescapeStep(content, p, hidden, end, left, before);
          var sequence, emitted := DecodeEscape(p, end, output, length);
          if sequence == 0 {
            return false, p, length;
          }
          hidden, left := hidden', left';
          p, length := p + sequence, length + emitted;
        }
      }
      UnescapeDone(content, p, end, output[..length]);
      output[length] := NUL;
      ok := true;
    }

    method ParseString(item: Node) returns (ok: bool)
      requires Valid()
      modifies this`offset, item`kind, item`valuestring
      ensures var r := JsonParse.ParseString(content, old(offset));
              ok == r.Parsed? && offset == r.pos
              && (ok ==> Valid() && item.kind == StringKind && item.valuestring == Chars(r.value.text))
    {
      hide Scan, Unescape;
      var start := offset + 1;
      if content[offset] != QUOTE {
        offset := start;
        return false;
      }
      var closed, end, skipped := ScanLiteral(start);
      if !closed {
        offset := start;
        return false;
      }
      ScanEndsBeforeNul(content, start);
      EscapesTakeTwo(content, start);
      var output := new byte[end - start - skipped + 2];
      var unescaped, p, length := UnescapeLiteral(start, end, skipped, output);
      if !unescaped {
        offset := p;
        return false;
      }
      item.kind := StringKind;
      item.valuestring := Chars(CString(output[..length]));
      offset := end + 1;
      return true;
    }

    method ParseValue(item: Node) returns (ok: bool)
      requires Valid() && item.repr == {item} && item.Childless()
      modifies this, item`kind, item`child, item`valuestring, item`valueint, item`valuedouble, item`kids, item`repr
      ensures var r := JsonParse.ParseValue(content, old(offset), old(depth));
              ok == r.Parsed? && offset == r.pos
              && (ok ==> Valid() && depth == old(depth) && item.Holds(r.value) && fresh(item.repr - {item}))
      decreases |content| - offset, 1
    {
      hide Scan, Unescape, JsonParse.ParseString, JsonParse.ParseNumber, JsonParse.ParseArray, JsonParse.ParseObject;
      if At(content, offset, NULL_WORD) {
        LiteralEndsBeforeNul(content, offset, NULL_WORD);
        item.kind := NullKind;
        offset := offset + 4;
        return true;
      }
      if At(content, offset, FALSE_WORD) {
        LiteralEndsBeforeNul(content, offset, FALSE_WORD);
        item.kind := FalseKind;
        offset := offset + 5;
        return true;
      }
      if At(content, offset, TRUE_WORD) {
        LiteralEndsBeforeNul(content, offset, TRUE_WORD);
        item.kind := TrueKind;
        item.valueint := 1;
        offset := offset + 4;
        return true;
      }
      if content[offset] == QUOTE {
        ok := ParseString(item);
      } else if content[offset] == MINUS || IsDigit(content[offset]) {
        ok := ParseNumber(item);
      } else if content[offset] == LBRACKET {
        ok := ParseArray(item);
      } else if content[offset] == LBRACE {
        ok := ParseObject(item);
      } else {
        ok := false;
      }
    }

    method ParseArray(item: Node) returns (ok: bool)
      requires Valid() && item.repr == {item} && item.Childless() && content[offset] == LBRACKET
      modifies this, item`kind, item`child, item`kids, item`repr
      ensures var r := JsonParse.ParseArray(content, old(offset), old(depth));
              ok == r.Parsed? && offset == r.pos
              && (ok ==> Valid() && depth == old(depth) && item.Holds(r.value) && fresh(item.repr - {item}))
      decreases |content| - offset, 0
    {
      hide JsonParse.ParseValue, ParseItems, Skip, Linked, Chained, Separate, HoldItems, WouldHold, Node.Holds;
      NoNodes();
      if depth >= NESTING_LIMIT {
        return false;
      }
      depth := depth + 1;
      offset := offset + 1;
      SkipWhitespace();
      var head: Node? := null;
      ghost var kids: seq<Node>, items: seq<Json>, below: set<Node> := [], [], {};
      if content[offset] != RBRACKET {
        ok, head, kids, items, below := ParseElements();
        if !ok {
          return false;
        }
      }
      depth := depth - 1;
      AdoptItems(item, head, items, kids, below);
      offset := offset + 1;
      return true;
    }

    /** One element: a new node behind the ones so far, and the value parsed into it. */
    method ParseElement(current: Node?, ghost kids: seq<Node>, ghost items: seq<Json>, ghost below: set<Node>)
      returns (ok: bool, item: Node, ghost below': set<Node>)
      requires Valid()
      requires Chained(kids) && Separate(kids, below) && HoldItems(kids, items, below)
      requires if kids == [] then current == null else current == kids[|kids| - 1]
      modifies this, current
      ensures var r := JsonParse.ParseValue(content, old(offset), old(depth));
              ok == r.Parsed? && offset == r.pos
              && (ok ==> Valid() && depth == old(depth) && Chained(kids + [item]) && Separate(kids + [item], below')
                         && HoldItems(kids + [item], items + [r.value], below'))
      ensures ok ==> below <= below' && fresh(below' - below) && fresh(item)
      decreases |content| - offset, 2
    {
      hide JsonParse.ParseValue, Separate, HoldItems, HoldMembers, Chained;
      KidsAreBelow(kids, below);
      item := AttachNew(current, kids, below);
      ok := ParseValue(item);
      below' := below + item.repr;
      if ok {
        OneMoreItem(kids, items, below, item, JsonParse.ParseValue(content, old(offset), old(depth)).value);
      }
    }

    /** One element, and what the byte behind it says about the list that began at `start`. */
    method NextElement(
        current: Node?, ghost start: nat, ghost kids: seq<Node>, ghost items: seq<Json>, ghost below: set<Node>)
      returns (ok: bool, item: Node, ghost items': seq<Json>, ghost below': set<Node>)
      requires Valid() && start <= offset
      requires ParseItems(content, start, depth) == AfterItems(items, ParseItems(content, offset, depth))
      requires Chained(kids) && Separate(kids, below) && HoldItems(kids, items, below)
      requires if kids == [] then current == null else current == kids[|kids| - 1]
      modifies this, current
      ensures !ok ==> ParseItems(content, start, old(depth)) == NoItems(offset)
      ensures ok ==>
                Valid() && depth == old(depth) && old(offset) < offset
                && var r := ParseItems(content, start, depth);
                   if content[offset] == COMMA then
                     r == AfterItems(items', ParseItems(content, Skip(content, offset + 1), depth))
                   else if content[offset] == RBRACKET then r == Items(items', offset + 1)
                   else r == NoItems(offset)
      ensures ok ==>
                Chained(kids + [item]) && Separate(kids + [item], below') && HoldItems(kids + [item], items', below')
      ensures ok ==> below <= below' && fresh(below' - below) && fresh(item)
      decreases |content| - offset, 3
    {
      hide JsonParse.ParseValue, ParseItems, Skip, AfterItems, Chained, Separate, HoldItems;
      ItemsAfterFirst(content, start, items, offset, depth);
      ghost var first := JsonParse.ParseValue(content, offset, depth);
      ok, item, below' := ParseElement(current, kids, items, below);
      if ok {
        items' := items + [first.value];
        SkipWhitespace();
      } else {
        items' := items;
      }
    }

    /** The comma-separated elements of an array, up to the closing bracket, as a finished list. */
    method ParseElements()
      returns (ok: bool, head: Node?, ghost kids: seq<Node>, ghost items: seq<Json>, ghost below: set<Node>)
      requires Valid()
      modifies this
      ensures var r := ParseItems(content, old(offset), old(depth));
              ok == r.Items?
              && (ok ==> Valid() && depth == old(depth) && content[offset] == RBRACKET && offset + 1 == r.pos
                         && items == r.items)
              && (!ok ==> offset == r.pos)
      ensures ok ==> kids != [] && head == kids[0] && Linked(kids)
      ensures ok ==> Separate(kids, below) && HoldItems(kids, items, below) && fresh(below)
      decreases |content| - offset, 4
    {
      hide JsonParse.ParseValue, ParseItems, Skip, AfterItems, Chained, Linked, Separate, HoldItems, HoldMembers;
      ghost var start, d := offset, depth;
      var current: Node? := null;
      head, kids, items, below := null, [], [], {};
      NoNodes();
      AfterNothing(content, start, d);
      while true
        invariant Valid() && depth == d && start <= offset
        invariant ParseItems(content, start, d) == AfterItems(items, ParseItems(content, offset, d))
        invariant if kids == [] then head == null && current == null else head == kids[0] && current == kids[|kids| - 1]
        invariant current != null ==> fresh(current) && fresh(head)
        invariant Chained(kids) && Separate(kids, below) && HoldItems(kids, items, below) && fresh(below)
        decreases |content| - offset
      {
        var item;
        ok, item, items, below := NextElement(current, start, kids, items, below);
        if !ok {
          return;
        }
        head := if head == null then item else head;
        current := item;
        kids := kids + [item];
        if content[offset] != COMMA {
          break;
        }
        SkipComma();
      }
      ok := FinishElements(head, current, kids, items, below);
    }

    /** At the closing bracket the list is complete. */
    method FinishElements(
        head: Node, current: Node, ghost kids: seq<Node>, ghost items: seq<Json>, ghost below: set<Node>)
      returns (ok: bool)
      requires Valid() && kids != [] && head == kids[0] && current == kids[|kids| - 1]
      requires Chained(kids) && Separate(kids, below) && HoldItems(kids, items, below)
      modifies head`prev
      ensures ok == (content[offset] == RBRACKET)
      ensures ok ==> Linked(kids) && Separate(kids, below) && HoldItems(kids, items, below)
    {
      hide Chained, Linked, Separate, HoldItems, HoldMembers;
      if content[offset] != RBRACKET {
        return false;
      }
      KidsAreBelow(kids, below);
      Close(head, current, kids, below);
      ok := true;
    }

    method ParseObject(item: Node) returns (ok: bool)
      requires Valid() && item.repr == {item} && item.Childless() && content[offset] == LBRACE
      modifies this, item`kind, item`child, item`kids, item`repr
      ensures var r := JsonParse.ParseObject(content, old(offset), old(depth));
              ok == r.Parsed? && offset == r.pos
              && (ok ==> Valid() && depth == old(depth) && item.Holds(r.value) && fresh(item.repr - {item}))
      decreases |content| - offset, 0
    {
      hide JsonParse.ParseValue, JsonParse.ParseMember, ParseMembers, Skip;
      hide Linked, Chained, Separate, HoldMembers, WouldHold, Node.Holds;
      NoNodes();
      if depth >= NESTING_LIMIT {
        return false;
      }
      depth := depth + 1;
      offset := offset + 1;
      SkipWhitespace();
      var head: Node? := null;
      ghost var kids: seq<Node>, members: seq<Member>, below: set<Node> := [], [], {};
      if content[offset] != RBRACE {
        ok, head, kids, members, below := ParseChildren();
        if !ok {
          return false;
        }
      }
      depth := depth - 1;
      AdoptMembers(item, head, members, kids, below);
      offset := offset + 1;
      return true;
    }

    /** One member: a new node behind the ones so far, its key, and the value parsed into it. */
    method ParseMember(current: Node?, ghost kids: seq<Node>, ghost members: seq<Member>, ghost below: set<Node>)
      returns (ok: bool, item: Node, ghost below': set<Node>)
      requires Valid()
      requires Chained(kids) && Separate(kids, below) && HoldMembers(kids, members, below)
      requires if kids == [] then current == null else current == kids[|kids| - 1]
      modifies this, current
      ensures var r := JsonParse.ParseMember(content, old(offset), old(depth));
              ok == r.OneMember? && offset == r.pos
              && (ok ==> Valid() && depth == old(depth) && Chained(kids + [item]) && Separate(kids + [item], below')
                         && HoldMembers(kids + [item], members + [r.member], below'))
      ensures ok ==> below <= below' && fresh(below' - below) && fresh(item)
      decreases |content| - offset, 3
    {
      hide JsonParse.ParseValue, JsonParse.ParseString, JsonParse.ParseMember, Skip;
      hide Separate, HoldItems, HoldMembers, Chained, Node.Holds;
      KidsAreBelow(kids, below);
      item := AttachNew(current, kids, below);
      below' := below;
      ok := ParseKeyAndValue(item);
      below' := below + item.repr;
      if ok {
        OneMoreMember(kids, members, below, item, JsonParse.ParseMember(content, old(offset), old(depth)).member);
      }
    }

    /** The key of a member becomes the name of its node, which is then parsed into. */
    method ParseKeyAndValue(item: Node) returns (ok: bool)
      requires Valid() && item.repr == {item} && item.Childless()
      modifies this, item`kind, item`child, item`valuestring, item`valueint, item`valuedouble
      modifies item`kids, item`repr, item`name
      ensures var r := JsonParse.ParseMember(content, old(offset), old(depth));
              ok == r.OneMember? && offset == r.pos
              && (ok ==> Valid() && depth == old(depth)
                         && item.name == Chars(r.member.key) && item.Holds(r.member.value)
                         && fresh(item.repr - {item}))
      decreases |content| - offset, 2
    {
      hide JsonParse.ParseValue, JsonParse.ParseString, Skip, Node.Holds;
      ok := ParseKey(item);
      if !ok {
        return;
      }
      ok := ParseValue(item);
    }

    /** A comma, and white space behind it. */
    method SkipComma()
      requires Valid() && content[offset] == COMMA
      modifies this`offset
      ensures old(offset) + 1 < |content|
      ensures Valid() && offset == Skip(content, old(offset) + 1) && old(offset) < offset
    {
      hide Skip;
      offset := offset + 1;
      SkipWhitespace();
    }

    /** A key and the colon behind it; the key moves from the value to the name of the node. */
    method ParseKey(item: Node) returns (ok: bool)
      requires Valid()
      modifies this`offset, item`kind, item`valuestring, item`name
      ensures var key := JsonParse.ParseString(content, old(offset));
              if key.Failed? then !ok && offset == key.pos
              else
                var colon := Skip(content, key.pos);
                if colon == |content| || content[colon] != COLON then !ok && offset == colon
                else ok && Valid() && offset == Skip(content, colon + 1) && item.name == Chars(key.value.text)
    {
      hide JsonParse.ParseString, Skip;
      ok := ParseString(item);
      if !ok {
        return;
      }
      SkipWhitespace();
      item.name := item.valuestring;
      item.valuestring := NoChars;
      if content[offset] != COLON {
        ok := false;
        return;
      }
      offset := offset + 1;
      SkipWhitespace();
    }

    /** One member, and what the byte behind it says about the list that began at `start`. */
    method NextMember(
        current: Node?, ghost start: nat, ghost kids: seq<Node>, ghost members: seq<Member>, ghost below: set<Node>)
      returns (ok: bool, item: Node, ghost members': seq<Member>, ghost below': set<Node>)
      requires Valid() && start <= offset
      requires ParseMembers(content, start, depth) == AfterMembers(members, ParseMembers(content, offset, depth))
      requires Chained(kids) && Separate(kids, below) && HoldMembers(kids, members, below)
      requires if kids == [] then current == null else current == kids[|kids| - 1]
      modifies this, current
      ensures !ok ==> ParseMembers(content, start, old(depth)) == NoMembers(offset)
      ensures ok ==>
                Valid() && depth == old(depth) && old(offset) < offset
                && var r := ParseMembers(content, start, depth);
                   if content[offset] == COMMA then
                     r == AfterMembers(members', ParseMembers(content, Skip(content, offset + 1), depth))
                   else if content[offset] == RBRACE then r == Members(members', offset + 1)
                   else r == NoMembers(offset)
      ensures ok ==>
                Chained(kids + [item]) && Separate(kids + [item], below')
                && HoldMembers(kids + [item], members', below')
      ensures ok ==> below <= below' && fresh(below' - below) && fresh(item)
      decreases |content| - offset, 4
    {
      hide JsonParse.ParseMember, ParseMembers, Skip, AfterMembers, Chained, Separate, HoldMembers;
      MembersAfterFirst(content, start, members, offset, depth);
      ghost var first := JsonParse.ParseMember(content, offset, depth);
      ok, item, below' := ParseMember(current, kids, members, below);
      if ok {
        members' := members + [first.member];
        SkipWhitespace();
      } else {
        members' := members;
      }
    }

    /** The comma-separated members of an object, up to the closing brace, as a finished list. */
    method ParseChildren()
      returns (ok: bool, head: Node?, ghost kids: seq<Node>, ghost members: seq<Member>, ghost below: set<Node>)
      requires Valid()
      modifies this
      ensures var r := ParseMembers(content, old(offset), old(depth));
              ok == r.Members?
              && (ok ==> Valid() && depth == old(depth) && content[offset] == RBRACE && offset + 1 == r.pos
                         && members == r.members)
              && (!ok ==> offset == r.pos)
      ensures ok ==> kids != [] && head == kids[0] && Linked(kids)
      ensures ok ==> Separate(kids, below) && HoldMembers(kids, members, below) && fresh(below)
      decreases |content| - offset, 5
    {
      hide JsonParse.ParseMember, ParseMembers, Skip, AfterMembers, Chained, Linked, Separate, HoldItems, HoldMembers;
      ghost var start, d := offset, depth;
      var current: Node? := null;
      head, kids, members, below := null, [], [], {};
      NoNodes();
      AfterNothing(content, start, d);
      while true
        invariant Valid() && depth == d && start <= offset
        invariant ParseMembers(content, start, d) == AfterMembers(members, ParseMembers(content, offset, d))
        invariant if kids == [] then head == null && current == null else head == kids[0] && current == kids[|kids| - 1]
        invariant current != null ==> fresh(current) && fresh(head)
        invariant Chained(kids) && Separate(kids, below) && HoldMembers(kids, members, below) && fresh(below)
        decreases |content| - offset
      {
        var item;
        ok, item, members, below := NextMember(current, start, kids, members, below);
        if !ok {
          return;
        }
        head := if head == null then item else head;
        current := item;
        kids := kids + [item];
        if content[offset] != COMMA {
          break;
        }
        SkipComma();
      }
      ok := FinishChildren(head, current, kids, members, below);
    }

    /** The same at the closing brace. */
    method FinishChildren(
        head: Node, current: Node, ghost kids: seq<Node>, ghost members: seq<Member>, ghost below: set<Node>)
      returns (ok: bool)
      requires Valid() && kids != [] && head == kids[0] && current == kids[|kids| - 1]
      requires Chained(kids) && Separate(kids, below) && HoldMembers(kids, members, below)
      modifies head`prev
      ensures ok == (content[offset] == RBRACE)
      ensures ok ==> Linked(kids) && Separate(kids, below) && HoldMembers(kids, members, below)
    {
      hide Chained, Linked, Separate, HoldItems, HoldMembers;
      if content[offset] != RBRACE {
        return false;
      }
      KidsAreBelow(kids, below);
      Close(head, current, kids, below);
      ok := true;
    }
  }

  lemma AfterNothing(c: seq<byte>, p: nat, depth: nat)
    requires p <= |c|
    ensures AfterItems([], ParseItems(c, p, depth)) == ParseItems(c, p, depth)
    ensures AfterMembers([], ParseMembers(c, p, depth)) == ParseMembers(c, p, depth)
  {
    hide ParseItems, ParseMembers;
  }

  /** What the next member, and the byte behind it, mean for the list of members. */
  lemma MembersAfterFirst(c: seq<byte>, start: nat, members: seq<Member>, p: nat, depth: nat)
    requires start <= |c| && p < |c|
    requires ParseMembers(c, start, depth) == AfterMembers(members, ParseMembers(c, p, depth))
    ensures var first := JsonParse.ParseMember(c, p, depth);
            if first.NoMember? then ParseMembers(c, start, depth) == NoMembers(first.pos)
            else
              var q := Skip(c, first.pos);
              var members' := members + [first.member];
              if q < |c| && c[q] == COMMA then
                ParseMembers(c, start, depth) == AfterMembers(members', ParseMembers(c, Skip(c, q + 1), depth))
              else if q < |c| && c[q] == RBRACE then ParseMembers(c, start, depth) == Members(members', q + 1)
              else ParseMembers(c, start, depth) == NoMembers(q)
  {
    hide JsonParse.ParseMember, Skip;
    var first := JsonParse.ParseMember(c, p, depth);
    if first.OneMember? {
      var q := Skip(c, first.pos);
      if q < |c| && c[q] == COMMA {
        var rest := ParseMembers(c, Skip(c, q + 1), depth);
        if rest.Members? {
          Associative(members, [first.member], rest.members);
        }
      }
    }
  }

  /** What the next value, and the byte behind it, mean for the list of elements. */
  lemma ItemsAfterFirst(c: seq<byte>, start: nat, items: seq<Json>, p: nat, depth: nat)
    requires start <= |c| && p <= |c|
    requires ParseItems(c, start, depth) == AfterItems(items, ParseItems(c, p, depth))
    ensures var first := JsonParse.ParseValue(c, p, depth);
            if first.Failed? then ParseItems(c, start, depth) == NoItems(first.pos)
            else
              var q := Skip(c, first.pos);
              var items' := items + [first.value];
              if q < |c| && c[q] == COMMA then
                ParseItems(c, start, depth) == AfterItems(items', ParseItems(c, Skip(c, q + 1), depth))
              else if q < |c| && c[q] == RBRACKET then ParseItems(c, start, depth) == Items(items', q + 1)
              else ParseItems(c, start, depth) == NoItems(q)
  {
    hide JsonParse.ParseValue, Skip;
    var first := JsonParse.ParseValue(c, p, depth);
    if first.Parsed? {
      var q := Skip(c, first.pos);
      if q < |c| && c[q] == COMMA {
        var rest := ParseItems(c, Skip(c, q + 1), depth);
        if rest.Items? {
          Associative(items, [first.value], rest.items);
        }
      }
    }
  }

  lemma LiteralEndsBeforeNul(c: seq<byte>, p: nat, word: seq<byte>)
    requires |c| > 0 && c[|c| - 1] == NUL && At(c, p, word)
    requires word != [] && word[|word| - 1] != NUL
    ensures p + |word| < |c|
  {
    AtIndex(c, p, word, |word| - 1);
  }

  lemma {:induction false} ScanEndsBeforeNul(c: seq<byte>, p: nat)
    requires |c| > 0 && c[|c| - 1] == NUL && p <= |c| && Scan(c, p).Closed?
    ensures Scan(c, p).end + 1 < |c|
  {
  }

  lemma StartInStep(c: seq<byte>, start: nat)
    requires start <= |c| && Scan(c, start).Closed?
    ensures InStep(c, start, false, Scan(c, start).end, Scan(c, start).escapes)
    ensures 2 * Scan(c, start).escapes <= Scan(c, start).end - start
  {
    hide Scan;
    EscapesTakeTwo(c, start);
  }

  lemma InStepRoom(c: seq<byte>, p: nat, hidden: bool, end: nat, left: nat)
    requires InStep(c, p, hidden, end, left)
    ensures 2 * left <= end - p
  {
    hide Scan;
    EscapesTakeTwo(c, if hidden then p + 1 else p);
  }

  lemma HexIsSpelled(h: seq<byte>)
    requires |h| == 4
    ensures ReadAs(h, Hex4(h))
  {
    hide Spells, IsHex4;
    forall n | Spells(h, n)
      ensures Hex4(h) == n
    {
      SpelledIsRead(h, n);
    }
    if IsHex4(h) {
      ReadIsSpelled(h);
    }
  }

  lemma NoBytesYet(u: UnescapeResult)
    ensures AfterBytes([], u) == u
  {
  }

  lemma UnescapeCopy(c: seq<byte>, p: nat, hidden: bool, end: nat, left: nat, before: seq<byte>)
    requires InStep(c, p, hidden, end, left) && p < end < |c| && c[p] != BACKSLASH
    ensures InStep(c, p + 1, false, end, left) && 2 * left <= end - (p + 1)
    ensures AfterBytes(before, Unescape(c, p, end)) == AfterBytes(before + [c[p]], Unescape(c, p + 1, end))
  {
    CopyStep(c, p, hidden, end, left);
    InStepRoom(c, p + 1, false, end, left);
    var rest := Unescape(c, p + 1, end);
    if rest.Unescaped? {
      Associative(before, [c[p]], rest.bytes);
    }
  }

  /** What one escape of the second pass does, and that its output fits the estimate. */
  lemma UnescapeStep(c: seq<byte>, p: nat, hidden: bool, end: nat, left: nat, before: seq<byte>)
    returns (hidden': bool, left': nat)
    requires InStep(c, p, hidden, end, left) && p < end < |c| && c[p] == BACKSLASH && (hidden ==> p < end)
    ensures left' <= left
    ensures var e := EscapeAt(c, p, end);
            if e.BadEscape? then
              AfterBytes(before, Unescape(c, p, end)) == BadAt(p)
            else
              var q := p + e.length;
              AfterBytes(before, Unescape(c, p, end)) == AfterBytes(before + e.bytes, Unescape(c, q, end))
              && p < q <= end + 1
              && |e.bytes| + (left - left') <= (if q <= end then q else end) - p
              && (q > end ==> left' == 0)
              && (q <= end ==> InStep(c, q, hidden', end, left') && (hidden' ==> q < end) && 2 * left' <= end - q)
  {
    var e := EscapeAt(c, p, end);
    hidden', left' := hidden, left;
    if e.Escape? {
      hidden', left' := EscapeStep(c, p, hidden, end, left);
      if p + e.length <= end {
        InStepRoom(c, p + e.length, hidden', end, left');
      }
      var rest := Unescape(c, p + e.length, end);
      if rest.Unescaped? {
        Associative(before, e.bytes, rest.bytes);
      }
    }
  }

  lemma UnescapeDone(c: seq<byte>, p: nat, end: nat, bytes: seq<byte>)
    requires end <= p && end < |c|
    ensures AfterBytes(bytes, Unescape(c, p, end)) == Unescaped(bytes)
  {
  }

  function Shifted(code: nat, times: nat): nat {
    if times == 0 then code else Shifted(code, times - 1) / 0x40
  }

  /** The bytes of an encoding: the tail from behind, then the lead byte with its mark. */
  lemma Utf8Bytes(code: nat)
    requires code <= 0x10_FFFF
    ensures var u := Utf8(code);
            var n := |u|;
            var mark := if n == 1 then 0 else if n == 2 then 0xC0 else if n == 3 then 0xE0 else 0xF0;
            n == (if code < 0x80 then 1 else if code < 0x800 then 2 else if code < 0x1_0000 then 3 else 4)
            && Shifted(code, 0) == code
            && (forall k: nat :: Shifted(code, k + 1) == Shifted(code, k) / 0x40)
            && (forall i :: 0 < i < n ==> u[i] == Continuation(Shifted(code, n - 1 - i)))
            && Shifted(code, n - 1) + mark <= 255 && u[0] as int == Shifted(code, n - 1) + mark
  {
    Shifts(code);
  }

  lemma Shifts(code: nat)
    ensures Shifted(code, 0) == code && Shifted(code, 1) == code / 0x40
    ensures Shifted(code, 2) == code / 0x1000 && Shifted(code, 3) == code / 0x4_0000
  {
    assert Shifted(code, 1) == code / 0x40;
    assert Shifted(code, 2) == code / 0x40 / 0x40;
    assert Shifted(code, 3) == code / 0x40 / 0x40 / 0x40;
  }

  lemma {:induction false} NumberRunIs(c: seq<byte>, p: nat, room: nat, n: nat)
    requires n <= room && p + n <= |c| && forall k :: p <= k < p + n ==> IsNumberByte(c[k])
    requires n == room || p + n == |c| || !IsNumberByte(c[p + n])
    ensures NumberRun(c, p, room) == c[p..p + n]
    decreases n
  {
    hide At;
    if n > 0 {
      NumberRunIs(c, p + 1, room - 1, n - 1);
    }
  }

  lemma NumberEndsBeforeNul(c: seq<byte>, p: nat)
    requires |c| > 0 && c[|c| - 1] == NUL && p < |c|
    ensures p + |NumberRun(c, p, NUMBER_BUFFER)| < |c|
  {
    hide NumberRun, At;
    var t := NumberRun(c, p, NUMBER_BUFFER);
    if p + |t| == |c| {
      AtIndex(c, p, t, |t| - 1);
    }
  }
}
