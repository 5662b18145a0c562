/** The value a cJSON tree stands for. */
module JsonValue {
  import opened JsonText

  datatype Member = Member(key: seq<byte>, value: Json)

  /** Text is what a C string holds, so never contains NUL where cJSON made it; numbers are exact. */
  datatype Json =
    | Null
    | False
    | True
    | Number(number: real)
    | String(text: seq<byte>)
    | Array(items: seq<Json>)
    | Object(members: seq<Member>)

  const INT_MAX := 0x7fff_ffff
  const INT_MIN := -0x8000_0000

  /** The `valueint` that accompanies a number: truncated toward zero and saturated. */
  function ValueInt(r: real): int {
    if r >= INT_MAX as real then INT_MAX
    else if r <= INT_MIN as real then INT_MIN
    else if r >= 0.0 then r.Floor
    else -((-r).Floor)
  }

  /** A 32-bit integer number, the ones printed with "%d". */
  predicate IsInt(r: real) {
    r == ValueInt(r) as real
  }

  /** Containers are nested at most `room` deep. */
  predicate Fits(v: Json, room: nat)
    decreases v, 1
  {
    match v
    case Array(items) => room > 0 && ItemsFit(items, room - 1)
    case Object(members) => room > 0 && MembersFit(members, room - 1)
    case _ => true
  }

  predicate ItemsFit(items: seq<Json>, room: nat)
    decreases items, 0
  {
    items == [] || (Fits(items[0], room) && ItemsFit(items[1..], room))
  }

  predicate MembersFit(members: seq<Member>, room: nat)
    decreases members, 0
  {
    members == [] || (Fits(members[0].value, room) && MembersFit(members[1..], room))
  }

  /** Every number is a 32-bit integer and every text is a C string. */
  predicate Printable(v: Json)
    decreases v, 1
  {
    match v
    case Number(r) => IsInt(r)
    case String(t) => NulFree(t)
    case Array(items) => PrintableItems(items)
    case Object(members) => PrintableMembers(members)
    case _ => true
  }

  predicate PrintableItems(items: seq<Json>)
    decreases items, 0
  {
    items == [] || (Printable(items[0]) && PrintableItems(items[1..]))
  }

  predicate PrintableMembers(members: seq<Member>)
    decreases members, 0
  {
    members == [] || (NulFree(members[0].key) && Printable(members[0].value) && PrintableMembers(members[1..]))
  }

  /** Every text and every key is what a C string can hold. */
  predicate CStrings(v: Json)
    decreases v, 1
  {
    match v
    case String(t) => NulFree(t)
    case Array(items) => CStringItems(items)
    case Object(members) => CStringMembers(members)
    case _ => true
  }

  predicate CStringItems(items: seq<Json>)
    decreases items, 0
  {
    items == [] || (CStrings(items[0]) && CStringItems(items[1..]))
  }

  predicate CStringMembers(members: seq<Member>)
    decreases members, 0
  {
    members == [] || (NulFree(members[0].key) && CStrings(members[0].value) && CStringMembers(members[1..]))
  }
}
