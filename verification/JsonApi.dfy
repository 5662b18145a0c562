/** cJSON's entry points: parse a C string into a tree, print a tree. */
module JsonApi {
  import opened JsonText
  import opened JsonValue
  import opened JsonParse
  import opened JsonUnparse
  import opened JsonRoundTrip
  import opened JsonNode
  import opened JsonCursor
  import opened JsonPrintBuffer

  /**
   * `cJSON_ParseWithOpts` on a C string. The position is where parsing ended, or where the error is;
   * it is always inside the text or on its terminating NUL.
   */
  method ParseWithOpts(text: seq<byte>, requireNullTerminated: bool) returns (item: Node?, position: nat)
    requires NulFree(text)
    ensures position <= |text|
    ensures var c := text + [NUL];
            var r := JsonParse.Parse(c);
            (item != null <==> r.Parsed? && (requireNullTerminated ==> r.pos < |c| && c[Skip(c, r.pos)] == NUL))
            && (item != null ==> item.Holds(r.value) && fresh(item) && fresh(item.repr))
            && (r.Failed? ==> position == if r.pos == |c| then |text| else r.pos)
            && (r.Parsed? ==> position == if requireNullTerminated then Skip(c, r.pos) else r.pos)
  {
    hide JsonParse.ParseValue, Node.Holds;
    var c := text + [NUL];
    var buffer := new ParseBuffer(c);
    var root := new Node();
    buffer.SkipByteOrderMark();
    buffer.SkipWhitespace();
    var ok := buffer.ParseValue(root);
    position := buffer.offset;
    if !ok {
      item := null;
      if position >= |c| {
        position := |c| - 1;
      }
      return;
    }
    item := root;
    if requireNullTerminated {
      buffer.SkipWhitespace();
      position := buffer.offset;
      if c[position] != NUL {
        item := null;
      }
    }
  }

  /** `cJSON_Print` and `cJSON_PrintUnformatted`: a fresh C string, unless the text is too long for an `int`. */
  method Print(item: Node, format: bool, ghost v: Json) returns (ok: bool, printed: array<byte>)
    requires item.Holds(v) && Printable(v)
    ensures ok <==> |Unparse(v, format, 0)| + 2 <= INT_MAX
    ensures ok ==> fresh(printed) && printed[..] == Unparse(v, format, 0) + [NUL]
  {
    hide Unparse, Node.Holds, Printable;
    printed := new byte[256];
    var p := new PrintBuffer(printed, false, format);
    ok := p.PrintAndAdvance(item, v);
    if ok {
      ghost var t := Unparse(v, format, 0);
      assert p.buffer[..p.offset] == t;
      printed := new byte[p.offset + 1];
      forall i | 0 <= i < p.offset {
        printed[i] := p.buffer[i];
      }
      printed[p.offset] := NUL;
      assert printed[..p.offset] == t;
    }
  }

  /** `cJSON_PrintPreallocated`: succeeds exactly if the buffer has two bytes more than the text. */
  method PrintPreallocated(item: Node, buffer: array<byte>, format: bool, ghost v: Json) returns (ok: bool)
    requires item.Holds(v) && Printable(v) && buffer.Length <= INT_MAX
    modifies buffer
    ensures ok <==> |Unparse(v, format, 0)| + 2 <= buffer.Length
    ensures ok ==> buffer[..|Unparse(v, format, 0)| + 1] == Unparse(v, format, 0) + [NUL]
  {
    hide Unparse, Node.Holds, Printable;
    var p := new PrintBuffer(buffer, true, format);
    ok := p.PrintValue(item, v);
    if ok {
      ghost var t := Unparse(v, format, 0);
      assert [] + t == t;
      assert buffer[..|t| + 1] == buffer[..|t|] + [NUL];
    }
  }

  /** Printing a tree and parsing the text builds a new tree for the same value. */
  method PrintThenParse(item: Node, format: bool, ghost v: Json) returns (copy: Node?)
    requires item.Holds(v) && Printable(v) && Fits(v, NESTING_LIMIT)
    ensures copy == null ==> |Unparse(v, format, 0)| + 2 > INT_MAX
    ensures copy != null ==> copy.Holds(v) && fresh(copy) && fresh(copy.repr)
  {
    hide Unparse, Node.Holds, Printable, Fits, JsonParse.Parse;
    var ok, printed := Print(item, format, v);
    if !ok {
      return null;
    }
    ghost var t := Unparse(v, format, 0);
    UnparseNulFree(v, format, 0);
    RoundTrip(v, format);
    assert printed[..printed.Length - 1] == t;
    var position;
    copy, position := ParseWithOpts(printed[..printed.Length - 1], false);
  }
}
