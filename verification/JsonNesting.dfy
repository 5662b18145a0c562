/** What every parsed value has: bounded nesting and texts that are C strings. */
module JsonNesting {
  import opened JsonText
  import opened JsonValue
  import opened JsonParse
  import opened JsonUnparse
  import opened JsonRoundTrip

  lemma {:induction false} ParsedFits(c: seq<byte>, p: nat, depth: nat)
    requires p <= |c| && depth <= NESTING_LIMIT && ParseValue(c, p, depth).Parsed?
    ensures Fits(ParseValue(c, p, depth).value, NESTING_LIMIT - depth)
    ensures CStrings(ParseValue(c, p, depth).value)
    decreases |c| - p, 1
  {
    hide At, ParseString, NumberRun, Strtod, ParseItems, ParseMembers;
    var v := ParseValue(c, p, depth).value;
    if v.Array? && v.items != [] {
      ParsedItemsFit(c, Skip(c, p + 1), depth + 1);
    } else if v.Object? && v.members != [] {
      ParsedMembersFit(c, Skip(c, p + 1), depth + 1);
    }
  }

  lemma {:induction false} ParsedItemsFit(c: seq<byte>, p: nat, depth: nat)
    requires p <= |c| && depth <= NESTING_LIMIT && ParseItems(c, p, depth).Items?
    ensures ItemsFit(ParseItems(c, p, depth).items, NESTING_LIMIT - depth)
    ensures CStringItems(ParseItems(c, p, depth).items)
    decreases |c| - p, 2
  {
    hide ParseValue, Skip, Fits, CStrings;
    var first := ParseValue(c, p, depth);
    ParsedFits(c, p, depth);
    var q := Skip(c, first.pos);
    if q < |c| && c[q] == COMMA {
      ParsedItemsFit(c, Skip(c, q + 1), depth);
      assert ParseItems(c, p, depth).items[1..] == ParseItems(c, Skip(c, q + 1), depth).items;
    }
  }

  lemma {:induction false} ParsedMembersFit(c: seq<byte>, p: nat, depth: nat)
    requires p <= |c| && depth <= NESTING_LIMIT && ParseMembers(c, p, depth).Members?
    ensures MembersFit(ParseMembers(c, p, depth).members, NESTING_LIMIT - depth)
    ensures CStringMembers(ParseMembers(c, p, depth).members)
    decreases |c| - p, 2
  {
    hide ParseMember, Skip, Fits, CStrings;
    var first := ParseMember(c, p, depth);
    ParsedMemberFits(c, p, depth);
    var q := Skip(c, first.pos);
    if q < |c| && c[q] == COMMA {
      ParsedMembersFit(c, Skip(c, q + 1), depth);
      assert ParseMembers(c, p, depth).members[1..] == ParseMembers(c, Skip(c, q + 1), depth).members;
    }
  }

  lemma {:induction false} ParsedMemberFits(c: seq<byte>, p: nat, depth: nat)
    requires p < |c| && depth <= NESTING_LIMIT && ParseMember(c, p, depth).OneMember?
    ensures var m := ParseMember(c, p, depth).member;
            Fits(m.value, NESTING_LIMIT - depth) && CStrings(m.value) && NulFree(m.key)
    decreases |c| - p, 1
  {
    hide ParseString, ParseValue, Skip, Fits, CStrings;
    var colon := Skip(c, ParseString(c, p).pos);
    ParsedFits(c, Skip(c, colon + 1), depth);
  }

  /**
   * Whatever text a value was read from, if its numbers are 32-bit integers then printing it and
   * reading the print gives the same value again.
   */
  lemma Reparse(c: seq<byte>, format: bool)
    requires |c| > 0 && Parse(c).Parsed? && Printable(Parse(c).value)
    ensures var v := Parse(c).value;
            Parse(Unparse(v, format, 0) + [NUL]) == Parsed(v, |Unparse(v, format, 0)|)
  {
    hide ParseValue, Unparse, Fits, CStrings, Printable;
    ParsedFits(c, Skip(c, SkipMark(c)), 0);
    RoundTrip(Parse(c).value, format);
  }

  /** One level more than the limit is refused, whatever is inside. */
  lemma TooDeep(c: seq<byte>, p: nat)
    requires p < |c| && (c[p] == LBRACKET || c[p] == LBRACE)
    ensures ParseValue(c, p, NESTING_LIMIT) == Failed(p)
  {
    OtherWords(c, p);
  }
}
