/** Whole trees: find a member, duplicate, compare. */
module JsonTree {
  import opened JsonText
  import opened JsonValue
  import opened JsonNode
  import opened JsonCompare

  // ---- strings

  /** The byte of a C string at an index, its NUL included. */
  function CharAt(s: seq<byte>, i: nat): byte
    requires i <= |s|
  {
    if i < |s| then s[i] else NUL
  }

  /** `case_insensitive_strcmp`: zero exactly for strings that agree up to the case of letters. */
  method CaseInsensitiveStrcmp(s: CharPointer, t: CharPointer) returns (difference: int)
    requires (s.Chars? ==> NulFree(s.chars)) && (t.Chars? ==> NulFree(t.chars))
    ensures difference == 0 <==> s.Chars? && t.Chars? && SameKey(s.chars, t.chars, false)
  {
    if s.Chars? && t.Chars? {
      KeysFold(s.chars, t.chars, false);
    }
    if s == NoChars || t == NoChars {
      return 1;
    }
    var a, b := s.chars, t.chars;
    var i: nat := 0;
    while LowerByte(CharAt(a, i)) == LowerByte(CharAt(b, i))
      invariant i <= |a| && i <= |b|
      invariant forall j :: 0 <= j < i ==> LowerByte(a[j]) == LowerByte(b[j])
      decreases |a| - i
    {
      if CharAt(a, i) == NUL {
        assert |a| == i == |b|;
        return 0;
      }
      assert i < |a| && i < |b|;
      i := i + 1;
    }
    assert |a| == |b| ==> i < |a| && Lower(a)[i] != Lower(b)[i];
    difference := LowerByte(CharAt(a, i)) as int - LowerByte(CharAt(b, i)) as int;
  }

  /**
   * The index of the first child with the name, or the number of children. A case-sensitive search stops at a child
   * that has no name.
   */
  ghost function FindNamed(kids: seq<Node>, name: seq<byte>, caseSensitive: bool): (i: nat)
    reads kids`name
    ensures i <= |kids|
  {
    if kids == [] then 0
    else if kids[0].name == NoChars && caseSensitive then |kids|
    else if kids[0].name.Chars? && SameKey(kids[0].name.chars, name, caseSensitive) then 0
    else 1 + FindNamed(kids[1..], name, caseSensitive)
  }

  /** Child i is the first under the key, and a case-sensitive search meets none without a name before. */
  ghost predicate Found(kids: seq<Node>, i: int, name: seq<byte>, caseSensitive: bool)
    reads kids`name
  {
    0 <= i < |kids| && kids[i].name.Chars? && SameKey(kids[i].name.chars, name, caseSensitive)
    && forall j :: 0 <= j < i ==>
         if kids[j].name.Chars? then !SameKey(kids[j].name.chars, name, caseSensitive) else !caseSensitive
  }

  lemma {:induction false} FindNamedIsFirst(kids: seq<Node>, name: seq<byte>, caseSensitive: bool)
    ensures var f := FindNamed(kids, name, caseSensitive);
            if f < |kids| then Found(kids, f, name, caseSensitive)
            else forall i :: !Found(kids, i, name, caseSensitive)
    decreases |kids|
  {
    hide SameKey;
    if kids != [] {
      var rest := kids[1..];
      FindNamedIsFirst(rest, name, caseSensitive);
      if !(kids[0].name.Chars? && SameKey(kids[0].name.chars, name, caseSensitive))
         && (kids[0].name.Chars? || !caseSensitive) {
        forall i
          ensures Found(kids, i + 1, name, caseSensitive) <==> Found(rest, i, name, caseSensitive)
        {
          FoundBehind(kids, i, name, caseSensitive);
        }
        forall i
          ensures Found(kids, i, name, caseSensitive) ==> Found(rest, i - 1, name, caseSensitive)
        {
          FoundBehind(kids, i - 1, name, caseSensitive);
        }
      }
    }
  }

  lemma FoundBehind(kids: seq<Node>, i: int, name: seq<byte>, caseSensitive: bool)
    requires kids != []
    requires if kids[0].name.Chars? then !SameKey(kids[0].name.chars, name, caseSensitive) else !caseSensitive
    ensures Found(kids, i + 1, name, caseSensitive) <==> Found(kids[1..], i, name, caseSensitive)
  {
    hide SameKey;
    var rest := kids[1..];
    if Found(kids, i + 1, name, caseSensitive) {
      forall j | 0 <= j < i
        ensures if rest[j].name.Chars? then !SameKey(rest[j].name.chars, name, caseSensitive) else !caseSensitive
      {
        assert rest[j] == kids[j + 1];
      }
      assert i < 0 ==> i + 1 == 0;
    }
    if Found(rest, i, name, caseSensitive) {
      forall j | 0 <= j < i + 1
        ensures if kids[j].name.Chars? then !SameKey(kids[j].name.chars, name, caseSensitive) else !caseSensitive
      {
        assert j > 0 ==> kids[j] == rest[j - 1];
      }
    }
  }

  lemma FindNamedStep(kids: seq<Node>, i: nat, name: seq<byte>, caseSensitive: bool)
    requires i < |kids|
    ensures FindNamed(kids[i..], name, caseSensitive) ==
            if kids[i].name == NoChars && caseSensitive then |kids| - i
            else if kids[i].name.Chars? && SameKey(kids[i].name.chars, name, caseSensitive) then 0
            else 1 + FindNamed(kids[i + 1..], name, caseSensitive)
  {
    assert kids[i..][1..] == kids[i + 1..];
  }

  lemma FirstInFamily(parent: Node)
    requires parent.Family() || (parent.child == null && parent.kids == [])
    ensures parent.child == if parent.kids == [] then null else parent.kids[0]
  {
  }

  lemma NextInFamily(parent: Node, i: nat)
    requires parent.Family() && i < |parent.kids|
    ensures parent.kids[i] in parent.kids
    ensures parent.kids[i].next == if i + 1 < |parent.kids| then parent.kids[i + 1] else null
  {
  }

  lemma EitherWay(s: seq<byte>, t: seq<byte>, caseSensitive: bool)
    ensures SameKey(s, t, caseSensitive) <==> SameKey(t, s, caseSensitive)
    ensures caseSensitive ==> (SameKey(s, t, caseSensitive) <==> s == t)
  {
  }

  /** `get_object_item`, on any list of children, named or not. */
  method GetObjectItem(object_: Node?, name: CharPointer, caseSensitive: bool) returns (item: Node?)
    requires object_ != null ==>
               object_.Family() && forall k :: k in object_.kids && k.name.Chars? ==> NulFree(k.name.chars)
    requires name.Chars? ==> NulFree(name.chars)
    ensures item ==
            if object_ == null || name == NoChars then null
            else
              var i := FindNamed(object_.kids, name.chars, caseSensitive);
              if i < |object_.kids| then object_.kids[i] else null
    ensures item != null ==>
              exists i :: Found(object_.kids, i, name.chars, caseSensitive) && item == object_.kids[i]
    ensures object_ != null && name.Chars? && item == null ==>
              forall i :: !Found(object_.kids, i, name.chars, caseSensitive)
  {
    hide FindNamed, Found, SameKey, Node.Family;
    if object_ != null && name.Chars? {
      FindNamedIsFirst(object_.kids, name.chars, caseSensitive);
    }
    if object_ == null || name == NoChars {
      return null;
    }
    FirstInFamily(object_);
    item := object_.child;
    ghost var kids := object_.kids;
    ghost var i: nat := 0;
    assert kids[0..] == kids;
    while item != null
      invariant i <= |kids| && item == if i < |kids| then kids[i] else null
      invariant FindNamed(kids, name.chars, caseSensitive) == i + FindNamed(kids[i..], name.chars, caseSensitive)
      decreases |kids| - i
    {
      FindNamedStep(kids, i, name.chars, caseSensitive);
      NextInFamily(object_, i);
      if item.name.Chars? {
        EitherWay(name.chars, item.name.chars, caseSensitive);
      }
      var same := false;
      if caseSensitive {
        if item.name == NoChars {
          return null;
        }
        same := name.chars == item.name.chars;
      } else {
        var difference := CaseInsensitiveStrcmp(name, item.name);
        same := difference == 0;
      }
      if same {
        return;
      }
      item := item.next;
      i := i + 1;
    }
  }

  /** In an object, the name finds the member with that key. */
  lemma {:induction false} FindsMember(kids: seq<Node>, members: seq<Member>, name: seq<byte>, caseSensitive: bool)
    requires |kids| == |members| && forall i :: 0 <= i < |members| ==> kids[i].name == Chars(members[i].key)
    ensures FindNamed(kids, name, caseSensitive) == Find(members, name, caseSensitive)
    decreases |kids|
  {
    hide Fold, SameKey;
    if kids != [] {
      KeysFold(members[0].key, name, caseSensitive);
      FindsMember(kids[1..], members[1..], name, caseSensitive);
    }
  }

  // ---- comparison

  /** What `cJSON_Compare` decides of two trees: a node equals itself, whatever is in it. */
  ghost predicate Matching(a: Node, b: Node, v: Json, w: Json, caseSensitive: bool)
    requires a.Holds(v) && b.Holds(w)
    reads a, a.repr, b, b.repr
    decreases Size(v) + Size(w), 2
  {
    a == b
    || (match (v, w)
        case (Array(xs), Array(ys)) =>
          |xs| == |ys| && forall i :: 0 <= i < |xs| ==> ItemMatches(a, b, xs, ys, i, caseSensitive)
        case (Object(ms), Object(ns)) =>
          (forall i :: 0 <= i < |ms| ==> MemberMatches(a, b, ms, ns, i, caseSensitive))
          && (forall i :: 0 <= i < |ns| ==> MemberMatches(b, a, ns, ms, i, caseSensitive))
        case _ => Compare(v, w, caseSensitive))
  }

  ghost predicate ItemMatches(a: Node, b: Node, xs: seq<Json>, ys: seq<Json>, i: nat, caseSensitive: bool)
    requires a.Holds(Array(xs)) && b.Holds(Array(ys)) && i < |xs| && i < |ys|
    reads a, a.repr, b, b.repr
    decreases ItemsSize(xs) + ItemsSize(ys), 3
  {
    ItemIsSmaller(xs, i);
    ItemIsSmaller(ys, i);
    Matching(a.kids[i], b.kids[i], xs[i], ys[i], caseSensitive)
  }

  /** Child i of the first object has its match under its key in the second. */
  ghost predicate MemberMatches(a: Node, b: Node, ms: seq<Member>, ns: seq<Member>, i: nat, caseSensitive: bool)
    requires a.Holds(Object(ms)) && b.Holds(Object(ns)) && i < |ms|
    reads a, a.repr, b, b.repr
    decreases MembersSize(ms) + MembersSize(ns), 3
  {
    var f := Find(ns, ms[i].key, caseSensitive);
    f < |ns|
    && (MemberIsSmaller(ms, i);
        MemberIsSmaller(ns, f);
        Matching(a.kids[i], b.kids[f], ms[i].value, ns[f].value, caseSensitive))
  }

  /** Two arrays have the same length and matching items. */
  ghost predicate AllItemsMatch(a: Node, b: Node, xs: seq<Json>, ys: seq<Json>, caseSensitive: bool)
    requires a.Holds(Array(xs)) && b.Holds(Array(ys))
    reads a, a.repr, b, b.repr
  {
    |xs| == |ys| && forall i :: 0 <= i < |xs| ==> ItemMatches(a, b, xs, ys, i, caseSensitive)
  }

  /** Every member of the first object has its match in the second. */
  ghost predicate AllMembersMatch(a: Node, b: Node, ms: seq<Member>, ns: seq<Member>, caseSensitive: bool)
    requires a.Holds(Object(ms)) && b.Holds(Object(ns))
    reads a, a.repr, b, b.repr
  {
    forall i :: 0 <= i < |ms| ==> MemberMatches(a, b, ms, ns, i, caseSensitive)
  }

  lemma MatchingArrays(a: Node, b: Node, xs: seq<Json>, ys: seq<Json>, caseSensitive: bool)
    requires a.Holds(Array(xs)) && b.Holds(Array(ys)) && a != b
    ensures Matching(a, b, Array(xs), Array(ys), caseSensitive) <==> AllItemsMatch(a, b, xs, ys, caseSensitive)
  {
    hide Node.Holds, Compare;
  }

  lemma MatchingObjects(a: Node, b: Node, ms: seq<Member>, ns: seq<Member>, caseSensitive: bool)
    requires a.Holds(Object(ms)) && b.Holds(Object(ns)) && a != b
    ensures Matching(a, b, Object(ms), Object(ns), caseSensitive) <==>
            AllMembersMatch(a, b, ms, ns, caseSensitive) && AllMembersMatch(b, a, ns, ms, caseSensitive)
  {
    hide Node.Holds, Compare;
  }

  lemma MatchesItself(a: Node, v: Json, w: Json, caseSensitive: bool)
    requires a.Holds(v) && a.Holds(w)
    ensures Matching(a, a, v, w, caseSensitive)
  {
    hide Compare;
  }

  lemma MatchingLeaves(a: Node, b: Node, v: Json, w: Json, caseSensitive: bool)
    requires a.Holds(v) && b.Holds(w) && !(v.Array? && w.Array?) && !(v.Object? && w.Object?)
    ensures Matching(a, b, v, w, caseSensitive) <==> a == b || Compare(v, w, caseSensitive)
  {
    hide ItemMatches, MemberMatches, Compare;
  }

  /** The kind of a node tells which value it can stand for. */
  lemma KindDecides(a: Node, v: Json)
    requires a.Holds(v)
    ensures (a.kind == NullKind <==> v.Null?) && (a.kind == FalseKind <==> v.False?)
    ensures (a.kind == TrueKind <==> v.True?)
    ensures (a.kind == NumberKind <==> v.Number?) && (a.kind == StringKind <==> v.String?)
    ensures (a.kind == ArrayKind <==> v.Array?) && (a.kind == ObjectKind <==> v.Object?) && a.kind != InvalidKind
    ensures v.Array? || v.Object? || (a.kind in {NullKind, FalseKind, TrueKind, NumberKind, StringKind})
    ensures v.Array? ==> a.Holds(Array(v.items))
    ensures v.Object? ==> a.Holds(Object(v.members))
  {
    hide Node.Family;
  }

  lemma PartsAreCStrings(v: Json)
    requires CStrings(v)
    ensures v.Array? ==> CStringItems(v.items)
    ensures v.Object? ==> CStringMembers(v.members)
  {
  }

  lemma LeavesCompare(a: Node, b: Node, v: Json, w: Json, caseSensitive: bool)
    requires a.Holds(v) && b.Holds(w)
    ensures a.kind != b.kind ==> !Compare(v, w, caseSensitive)
    ensures a.kind == b.kind && a.kind in {NullKind, FalseKind, TrueKind} ==> Compare(v, w, caseSensitive)
    ensures a.kind == b.kind == NumberKind ==>
              (Compare(v, w, caseSensitive) <==> CompareDouble(a.valuedouble, b.valuedouble))
    ensures a.kind == b.kind == StringKind ==> (Compare(v, w, caseSensitive) <==> a.valuestring == b.valuestring)
  {
    hide CompareDouble, CompareItems, AllMatch, Node.Family;
  }

  /** The tree below a node, if any, stands for a value in which every string is a C string. */
  ghost predicate StandsFor(a: Node?, v: Json)
    reads a, if a == null then {} else a.repr
  {
    a != null ==> a.Holds(v) && CStrings(v)
  }

  /** `cJSON_Compare` */
  method CompareNodes(a: Node?, b: Node?, caseSensitive: bool, ghost v: Json, ghost w: Json) returns (equal: bool)
    requires StandsFor(a, v) && StandsFor(b, w)
    ensures equal == (a != null && b != null && Matching(a, b, v, w, caseSensitive))
    decreases Size(v) + Size(w), 0
  {
    hide Matching, AllItemsMatch, AllMembersMatch, Node.Holds, Compare, CompareDouble, CStrings;
    if a == null || b == null {
      return false;
    }

    KindDecides(a, v);
    KindDecides(b, w);
    LeavesCompare(a, b, v, w, caseSensitive);
    if !(v.Array? && w.Array?) && !(v.Object? && w.Object?) {
      MatchingLeaves(a, b, v, w, caseSensitive);
    }
    if a.kind != b.kind {
      return false;
    }
    if a == b {
      MatchesItself(a, v, w, caseSensitive);
      return true;
    }
    match a.kind {
      case FalseKind => return true;
      case TrueKind => return true;
      case NullKind => return true;
      case NumberKind => return CompareDouble(a.valuedouble, b.valuedouble);
      case StringKind => return a.valuestring == b.valuestring;
      case ArrayKind =>
        PartsAreCStrings(v);
        PartsAreCStrings(w);
        equal := CompareElements(a, b, caseSensitive, v.items, w.items);
        MatchingArrays(a, b, v.items, w.items, caseSensitive);
      case ObjectKind =>
        PartsAreCStrings(v);
        PartsAreCStrings(w);
        equal := FindsAll(a, b, caseSensitive, v.members, w.members);
        if equal {
          equal := FindsAll(b, a, caseSensitive, w.members, v.members);
        }
        MatchingObjects(a, b, v.members, w.members, caseSensitive);
      case InvalidKind => return false;
    }
  }

  /** The elements of two arrays in step. */
  method CompareElements(a: Node, b: Node, caseSensitive: bool, ghost xs: seq<Json>, ghost ys: seq<Json>)
    returns (equal: bool)
    requires a.Holds(Array(xs)) && b.Holds(Array(ys)) && CStringItems(xs) && CStringItems(ys)
    ensures equal == AllItemsMatch(a, b, xs, ys, caseSensitive)
    decreases ItemsSize(xs) + ItemsSize(ys), 2
  {
    hide Matching, Node.Holds, CStrings, CStringItems, Size, ItemsSize, ItemMatches;
    ArrayKids(a, xs);
    ArrayKids(b, ys);
    var x, y := a.child, b.child;
    ghost var i: nat := 0;
    while x != null && y != null
      invariant i <= |xs| && i <= |ys|
      invariant x == (if i < |xs| then a.kids[i] else null) && y == (if i < |ys| then b.kids[i] else null)
      invariant forall k :: 0 <= k < i ==> ItemMatches(a, b, xs, ys, k, caseSensitive)
      decreases |xs| - i
    {
      ItemIsSmaller(xs, i);
      ItemIsSmaller(ys, i);
      ItemIsCString(xs, i);
      ItemIsCString(ys, i);
      var same := CompareNodes(x, y, caseSensitive, xs[i], ys[i]);
      ItemMatching(a, b, xs, ys, i, caseSensitive);
      if !same {
        return false;
      }
      x, y := x.next, y.next;
      i := i + 1;
    }
    equal := x == y;
  }

  lemma ItemMatching(a: Node, b: Node, xs: seq<Json>, ys: seq<Json>, i: nat, caseSensitive: bool)
    requires a.Holds(Array(xs)) && b.Holds(Array(ys)) && i < |xs| && i < |ys|
    ensures |a.kids| == |xs| && |b.kids| == |ys| && a.kids[i].Holds(xs[i]) && b.kids[i].Holds(ys[i])
    ensures ItemMatches(a, b, xs, ys, i, caseSensitive) <==> Matching(a.kids[i], b.kids[i], xs[i], ys[i], caseSensitive)
  {
    hide Matching;
  }

  lemma MemberMatching(a: Node, b: Node, ms: seq<Member>, ns: seq<Member>, i: nat, caseSensitive: bool)
    requires a.Holds(Object(ms)) && b.Holds(Object(ns)) && i < |ms|
    ensures |a.kids| == |ms| && |b.kids| == |ns| && a.kids[i].Holds(ms[i].value)
    ensures var f := Find(ns, ms[i].key, caseSensitive);
            (f < |ns| ==> b.kids[f].Holds(ns[f].value))
            && (MemberMatches(a, b, ms, ns, i, caseSensitive) <==>
                f < |ns| && Matching(a.kids[i], b.kids[f], ms[i].value, ns[f].value, caseSensitive))
  {
    hide Matching, Find;
  }

  lemma {:induction false} ItemIsCString(items: seq<Json>, i: nat)
    requires i < |items| && CStringItems(items)
    ensures CStrings(items[i])
    decreases i
  {
    hide CStrings;
    if i > 0 {
      ItemIsCString(items[1..], i - 1);
    }
  }

  lemma NamesAreCStrings(b: Node, ns: seq<Member>)
    requires b.Holds(Object(ns)) && CStringMembers(ns)
    ensures b.Family() && forall k :: k in b.kids && k.name.Chars? ==> NulFree(k.name.chars)
  {
    hide CStringMembers, CStrings;
    ObjectKids(b, ns);
    forall i | 0 <= i < |ns|
      ensures NulFree(ns[i].key)
    {
      MemberIsCString(ns, i);
    }
  }

  /** One member of the first object against the second. */
  method FindsOne(
      a: Node, x: Node, b: Node, caseSensitive: bool, ghost ms: seq<Member>, ghost ns: seq<Member>, ghost i: nat)
    returns (found: bool)
    requires a.Holds(Object(ms)) && b.Holds(Object(ns)) && CStringMembers(ms) && CStringMembers(ns)
    requires i < |ms| && |a.kids| == |ms| && x == a.kids[i]
    ensures found == MemberMatches(a, b, ms, ns, i, caseSensitive)
    decreases MembersSize(ms) + MembersSize(ns), 1
  {
    hide Matching, MemberMatches, Node.Holds, Node.Family, CStrings, CStringMembers, Size, MembersSize, Find, FindNamed;
    ObjectKids(a, ms);
    ObjectKids(b, ns);
    NamesAreCStrings(b, ns);
    MemberIsCString(ms, i);
    ghost var f := Find(ns, ms[i].key, caseSensitive);
    FindsMember(b.kids, ns, ms[i].key, caseSensitive);
    MemberMatching(a, b, ms, ns, i, caseSensitive);
    var y := GetObjectItem(b, x.name, caseSensitive);
    if y == null {
      return false;
    }
    assert y == b.kids[f];
    MemberIsSmaller(ms, i);
    MemberIsSmaller(ns, f);
    MemberIsCString(ns, f);
    found := CompareNodes(x, y, caseSensitive, ms[i].value, ns[f].value);
  }

  /** Every child of the first object has an equal in the second under its key. */
  method FindsAll(a: Node, b: Node, caseSensitive: bool, ghost ms: seq<Member>, ghost ns: seq<Member>)
    returns (all: bool)
    requires a.Holds(Object(ms)) && b.Holds(Object(ns)) && CStringMembers(ms) && CStringMembers(ns)
    ensures all == AllMembersMatch(a, b, ms, ns, caseSensitive)
    decreases MembersSize(ms) + MembersSize(ns), 2
  {
    hide MemberMatches, Node.Holds, Node.Family, CStringMembers, MembersSize;
    ObjectKids(a, ms);
    var x := a.child;
    ghost var i: nat := 0;
    while x != null
      invariant i <= |ms| && x == if i < |ms| then a.kids[i] else null
      invariant forall k :: 0 <= k < i ==> MemberMatches(a, b, ms, ns, k, caseSensitive)
      decreases |ms| - i
    {
      var found := FindsOne(a, x, b, caseSensitive, ms, ns, i);
      if !found {
        return false;
      }
      x := x.next;
      i := i + 1;
    }
    all := true;
  }

  /** A node stands for one value only. */
  lemma {:induction false} HoldsOne(a: Node, v: Json, w: Json)
    requires a.Holds(v) && a.Holds(w)
    ensures v == w
    decreases v
  {
    match (v, w) {
      case (Array(xs), Array(ys)) =>
        forall i | 0 <= i < |xs|
          ensures xs[i] == ys[i]
        {
          HoldsOne(a.kids[i], xs[i], ys[i]);
        }
        assert xs == ys;
      case (Object(ms), Object(ns)) =>
        forall i | 0 <= i < |ms|
          ensures ms[i] == ns[i]
        {
          HoldsOne(a.kids[i], ms[i].value, ns[i].value);
        }
        assert ms == ns;
      case _ =>
    }
  }

  /** Separate trees, or values in which repeated keys agree, so that sharing makes no difference. */
  ghost predicate SharingDoesNotMatter(a: Node, b: Node, v: Json, w: Json, caseSensitive: bool)
    reads a`repr, b`repr
  {
    a.repr !! b.repr
    || (AllInts(v) && AllInts(w) && Agree(v, caseSensitive) && Agree(w, caseSensitive))
  }

  /** Then the decision depends on the values alone. */
  lemma {:induction false} MatchingIsCompare(a: Node, b: Node, v: Json, w: Json, caseSensitive: bool)
    requires a.Holds(v) && b.Holds(w) && SharingDoesNotMatter(a, b, v, w, caseSensitive)
    ensures Matching(a, b, v, w, caseSensitive) <==> Compare(v, w, caseSensitive)
    decreases Size(v) + Size(w), 0
  {
    hide Compare, Matching, Agree, AllInts, Node.Holds, AllItemsMatch, AllMembersMatch;
    if a == b {
      HoldsOne(a, v, w);
      InItsTree(a, v);
      CompareToItself(v, caseSensitive);
      MatchesItself(a, v, w, caseSensitive);
    } else if v.Array? && w.Array? {
      ArraysCompare(a, b, v.items, w.items, caseSensitive);
      MatchingArrays(a, b, v.items, w.items, caseSensitive);
    } else if v.Object? && w.Object? {
      ObjectsCompare(a, b, v.members, w.members, caseSensitive);
      ObjectsCompare(b, a, w.members, v.members, caseSensitive);
      MatchingObjects(a, b, v.members, w.members, caseSensitive);
      CompareParts(v, w, caseSensitive);
    } else {
      MatchingLeaves(a, b, v, w, caseSensitive);
    }
  }

  lemma InItsTree(a: Node, v: Json)
    requires a.Holds(v)
    ensures a in a.repr
  {
  }

  lemma {:induction false} ArraysCompare(a: Node, b: Node, xs: seq<Json>, ys: seq<Json>, caseSensitive: bool)
    requires a.Holds(Array(xs)) && b.Holds(Array(ys)) && a != b
    requires SharingDoesNotMatter(a, b, Array(xs), Array(ys), caseSensitive)
    ensures AllItemsMatch(a, b, xs, ys, caseSensitive) <==> Compare(Array(xs), Array(ys), caseSensitive)
    decreases ItemsSize(xs) + ItemsSize(ys), 2
  {
    hide Compare, ItemMatches, Node.Holds, SharingDoesNotMatter;
    CompareParts(Array(xs), Array(ys), caseSensitive);
    if |xs| == |ys| {
      forall i | 0 <= i < |xs|
        ensures ItemMatches(a, b, xs, ys, i, caseSensitive) <==> Compare(xs[i], ys[i], caseSensitive)
      {
        ItemsCompare(a, b, xs, ys, i, caseSensitive);
      }
    }
  }

  lemma {:induction false} ObjectsCompare(a: Node, b: Node, ms: seq<Member>, ns: seq<Member>, caseSensitive: bool)
    requires a.Holds(Object(ms)) && b.Holds(Object(ns)) && a != b
    requires SharingDoesNotMatter(a, b, Object(ms), Object(ns), caseSensitive)
    ensures AllMembersMatch(a, b, ms, ns, caseSensitive) <==>
            forall i :: 0 <= i < |ms| ==> MatchesAt(ms, ns, i, caseSensitive)
    decreases MembersSize(ms) + MembersSize(ns), 2
  {
    hide MatchesAt, MemberMatches, Node.Holds, SharingDoesNotMatter;
    forall i | 0 <= i < |ms|
      ensures MemberMatches(a, b, ms, ns, i, caseSensitive) <==> MatchesAt(ms, ns, i, caseSensitive)
    {
      MembersCompare(a, b, ms, ns, i, caseSensitive);
    }
  }

  lemma CompareParts(v: Json, w: Json, caseSensitive: bool)
    ensures v.Array? && w.Array? ==>
              (Compare(v, w, caseSensitive) <==>
               |v.items| == |w.items|
               && forall i :: 0 <= i < |v.items| ==> Compare(v.items[i], w.items[i], caseSensitive))
    ensures v.Object? && w.Object? ==>
              (Compare(v, w, caseSensitive) <==>
               (forall i :: 0 <= i < |v.members| ==> MatchesAt(v.members, w.members, i, caseSensitive))
               && (forall i :: 0 <= i < |w.members| ==> MatchesAt(w.members, v.members, i, caseSensitive)))
  {
    hide CompareItems, AllMatch, MatchesAt;
    if v.Array? && w.Array? {
      CompareEachItem(v.items, w.items, caseSensitive);
    }
    if v.Object? && w.Object? {
      MatchEach(v.members, w.members, caseSensitive);
      MatchEach(w.members, v.members, caseSensitive);
    }
  }

  lemma {:induction false} ItemsCompare(a: Node, b: Node, xs: seq<Json>, ys: seq<Json>, i: nat, caseSensitive: bool)
    requires a.Holds(Array(xs)) && b.Holds(Array(ys)) && i < |xs| && i < |ys|
    requires SharingDoesNotMatter(a, b, Array(xs), Array(ys), caseSensitive)
    ensures ItemMatches(a, b, xs, ys, i, caseSensitive) <==> Compare(xs[i], ys[i], caseSensitive)
    decreases ItemsSize(xs) + ItemsSize(ys), 1
  {
    hide Compare, Matching, ItemMatches;
    ItemMatching(a, b, xs, ys, i, caseSensitive);
    ItemIsSmaller(xs, i);
    ItemIsSmaller(ys, i);
    MatchingIsCompare(a.kids[i], b.kids[i], xs[i], ys[i], caseSensitive);
  }

  lemma {:induction false} MembersCompare(
      a: Node, b: Node, ms: seq<Member>, ns: seq<Member>, i: nat, caseSensitive: bool)
    requires a.Holds(Object(ms)) && b.Holds(Object(ns)) && i < |ms|
    requires SharingDoesNotMatter(a, b, Object(ms), Object(ns), caseSensitive)
    ensures MemberMatches(a, b, ms, ns, i, caseSensitive) <==> MatchesAt(ms, ns, i, caseSensitive)
    decreases MembersSize(ms) + MembersSize(ns), 1
  {
    hide Compare, Matching, MemberMatches, Find;
    MemberMatching(a, b, ms, ns, i, caseSensitive);
    var f := Find(ns, ms[i].key, caseSensitive);
    if f < |ns| {
      MemberIsSmaller(ms, i);
      MemberIsSmaller(ns, f);
      MatchingIsCompare(a.kids[i], b.kids[f], ms[i].value, ns[f].value, caseSensitive);
    }
  }

  lemma {:induction false} MemberIsCString(members: seq<Member>, i: nat)
    requires i < |members| && CStringMembers(members)
    ensures NulFree(members[i].key) && CStrings(members[i].value)
    decreases i
  {
    hide CStrings;
    if i > 0 {
      MemberIsCString(members[1..], i - 1);
    }
  }

  // ---- duplication

  /** The values of the children of a node that stands for v. */
  function ChildValues(v: Json): seq<Json> {
    match v
    case Array(items) => items
    case Object(members) => MemberValues(members)
    case _ => []
  }

  function MemberValues(members: seq<Member>): (values: seq<Json>)
    ensures |values| == |members| && forall i :: 0 <= i < |members| ==> values[i] == members[i].value
  {
    if members == [] then [] else [members[0].value] + MemberValues(members[1..])
  }

  lemma {:induction false} MemberValuesSize(members: seq<Member>)
    ensures ItemsSize(MemberValues(members)) == MembersSize(members)
    decreases |members|
  {
    hide Size;
    if members != [] {
      MemberValuesSize(members[1..]);
      assert MemberValues(members)[1..] == MemberValues(members[1..]);
    }
  }

  lemma ChildValuesAreSmaller(v: Json)
    ensures ItemsSize(ChildValues(v)) < Size(v)
  {
    if v.Object? {
      MemberValuesSize(v.members);
    }
  }

  /** What the shallow part of a duplicate copies; `next` and `prev` stay NULL. */
  predicate SameFields(item: Node, copy: Node)
    reads item, copy
  {
    copy.kind == item.kind && copy.valueint == item.valueint && copy.valuedouble == item.valuedouble
    && copy.valuestring == item.valuestring && copy.name == item.name && copy.next == null && copy.prev == null
  }

  /** The shallow part of a duplicate. */
  method CopyFields(item: Node) returns (copy: Node)
    ensures fresh(copy) && SameFields(item, copy) && copy.Childless() && copy.repr == {copy}
  {
    copy := new Node();
    copy.kind := item.kind;
    copy.valueint := item.valueint;
    copy.valuedouble := item.valuedouble;
    copy.valuestring := item.valuestring;
    copy.name := item.name;
  }

  /** `cJSON_Duplicate`: a new node with the same fields, and with a copy of every child if recursive. */
  method Duplicate(item: Node?, recurse: bool, ghost v: Json) returns (copy: Node?)
    requires item != null ==> item.Holds(v)
    ensures copy == null <==> item == null
    ensures copy != null ==> fresh(copy) && fresh(copy.repr) && SameFields(item, copy)
    ensures copy != null && recurse ==> copy.Holds(v)
    ensures copy != null && !recurse ==> copy.child == null
    decreases Size(v), 0
  {
    hide Node.Holds, Node.Family, Linked, Separate, HoldItems, WouldHold, Size, ChildValues, SameNames;
    if item == null {
      return null;
    }
    copy := CopyFields(item);
    if !recurse {
      return;
    }
    ChildValuesAreSmaller(v);
    HasChildren(item, v);
    var head;
    ghost var kids, below;
    head, kids, below := DuplicateChildren(item, ChildValues(v));
    CopyWouldHold(item, copy, v, kids, below);
    Adopt(copy, head, v, kids, below);
  }

  /** Copies in the order of their originals, under the same keys. */
  ghost predicate SameNames(copies: seq<Node>, kids: seq<Node>)
    reads copies`name, kids`name
  {
    |copies| <= |kids| && forall j :: 0 <= j < |copies| ==> copies[j].name == kids[j].name
  }

  lemma OneMoreName(copies: seq<Node>, kids: seq<Node>, copy: Node)
    requires SameNames(copies, kids) && |copies| < |kids| && copy.name == kids[|copies|].name
    ensures SameNames(copies + [copy], kids)
  {
  }

  lemma HasChildren(item: Node, v: Json)
    requires item.Holds(v)
    ensures |item.kids| == |ChildValues(v)|
    ensures forall i :: 0 <= i < |item.kids| ==> item.kids[i].Holds(ChildValues(v)[i])
    ensures if item.child == null then item.kids == [] else item.Family()
    ensures v.Object? ==> forall i :: 0 <= i < |item.kids| ==> item.kids[i].name == Chars(v.members[i].key)
  {
  }

  lemma MembersFromValues(kids: seq<Node>, members: seq<Member>, below: set<Node>)
    requires HoldItems(kids, MemberValues(members), below)
    requires forall i :: 0 <= i < |kids| ==> kids[i].name == Chars(members[i].key)
    ensures HoldMembers(kids, members, below)
  {
  }

  lemma CopyWouldHold(item: Node, copy: Node, v: Json, kids: seq<Node>, below: set<Node>)
    requires item.Holds(v) && SameFields(item, copy) && HoldItems(kids, ChildValues(v), below)
    requires |kids| == |item.kids| && SameNames(kids, item.kids)
    ensures WouldHold(copy, v, kids, below)
  {
    if v.Object? {
      MembersFromValues(kids, v.members, below);
    }
  }

  /** Copies of all children, as a finished list. */
  method DuplicateChildren(item: Node, ghost values: seq<Json>)
    returns (head: Node?, ghost kids: seq<Node>, ghost below: set<Node>)
    requires if item.child == null then item.kids == [] else item.Family()
    requires |item.kids| == |values| && forall i :: 0 <= i < |values| ==> item.kids[i].Holds(values[i])
    ensures head == (if kids == [] then null else kids[0]) && Linked(kids) && fresh(below)
    ensures Separate(kids, below) && HoldItems(kids, values, below)
    ensures |kids| == |item.kids| && SameNames(kids, item.kids)
    decreases ItemsSize(values), 2
  {
    hide Chained, Linked, HoldItems, Separate, SameNames, Size, ItemsSize, Node.Holds, Node.Family;
    NoNodes();
    NoNames(item.kids);
    var child := item.child;
    FirstInFamily(item);
    var last: Node? := null;
    head, kids, below := null, [], {};
    ghost var i: nat := 0;
    while child != null
      invariant i <= |values| && child == if i < |values| then item.kids[i] else null
      invariant |kids| == i && SameNames(kids, item.kids)
      invariant if kids == [] then head == null && last == null else head == kids[0] && last == kids[i - 1]
      invariant last != null ==> fresh(last) && fresh(head)
      invariant Chained(kids) && Separate(kids, below) && HoldItems(kids, values[..i], below) && fresh(below)
      decreases |values| - i
    {
      last, kids, below := DuplicateChild(child, last, item.kids, kids, below, values, i);
      head := if head == null then last else head;
      NextInFamily(item, i);
      child := child.next;
      i := i + 1;
    }
    assert values[..i] == values;
    if head != null {
      KidsAreBelow(kids, below);
      Close(head, last, kids, below);
    }
  }

  lemma NoNames(kids: seq<Node>)
    ensures SameNames([], kids)
  {
  }

  /** One more child: its copy goes to the end of the list. */
  method DuplicateChild(
      child: Node, last: Node?, ghost originals: seq<Node>, ghost kids: seq<Node>, ghost below: set<Node>,
      ghost values: seq<Json>, ghost i: nat)
    returns (copy: Node, ghost kids': seq<Node>, ghost below': set<Node>)
    requires |kids| == i < |originals| == |values| && child == originals[i] && child.Holds(values[i])
    requires if kids == [] then last == null else last == kids[i - 1]
    requires Chained(kids) && Separate(kids, below) && HoldItems(kids, values[..i], below) && SameNames(kids, originals)
    modifies (if last == null then {} else {last})`next
    ensures fresh(copy) && kids' == kids + [copy] && below <= below' && fresh(below' - below)
    ensures Chained(kids') && Separate(kids', below') && HoldItems(kids', values[..i + 1], below')
    ensures SameNames(kids', originals)
    decreases ItemsSize(values), 1
  {
    hide Chained, HoldItems, Separate, SameNames, Size, ItemsSize, Node.Holds;
    ItemIsSmaller(values, i);
    KidsAreBelow(kids, below);
    copy := Duplicate(child, true, values[i]);
    AttachBehind(last, copy, kids, below);
    OneMoreItem(kids, values[..i], below, copy, values[i]);
    assert values[..i] + [values[i]] == values[..i + 1];
    OneMoreName(kids, originals, copy);
    kids', below' := kids + [copy], below + copy.repr;
  }

  /** A recursive duplicate compares equal to the original exactly if repeated keys agree. */
  method DuplicateAndCompare(item: Node, caseSensitive: bool, ghost v: Json) returns (equal: bool)
    requires item.Holds(v) && CStrings(v) && AllInts(v)
    ensures equal <==> Agree(v, caseSensitive)
  {
    hide Node.Holds, Compare, Matching, CStrings, Agree, AllInts;
    var copy := Duplicate(item, true, v);
    CompareToItself(v, caseSensitive);
    equal := CompareNodes(item, copy, caseSensitive, v, v);
    MatchingIsCompare(item, copy, v, v, caseSensitive);
  }
}
