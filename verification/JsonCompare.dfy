/** When cJSON_Compare calls two values equal. */
module JsonCompare {
  import opened JsonText
  import opened JsonValue

  // ---- keys

  function LowerByte(b: byte): byte {
    if 65 <= b <= 90 then b + 32 else b
  }

  function Lower(s: seq<byte>): (r: seq<byte>)
    ensures |r| == |s| && forall i :: 0 <= i < |s| ==> r[i] == LowerByte(s[i])
  {
    if s == [] then [] else [LowerByte(s[0])] + Lower(s[1..])
  }

  /** Keys with the same fold are the same key. */
  function Fold(key: seq<byte>, caseSensitive: bool): seq<byte> {
    if caseSensitive then key else Lower(key)
  }

  /** The same byte, or two letters of which one is the capital of the other. */
  predicate SameLetter(a: byte, b: byte) {
    a == b || (65 <= a <= 90 && b == a + 32) || (65 <= b <= 90 && a == b + 32)
  }

  /** Keys that a search takes for the same. */
  predicate SameKey(s: seq<byte>, t: seq<byte>, caseSensitive: bool) {
    if caseSensitive then s == t
    else |s| == |t| && forall i :: 0 <= i < |s| ==> SameLetter(s[i], t[i])
  }

  lemma LettersFold(a: byte, b: byte)
    ensures LowerByte(a) == LowerByte(b) <==> SameLetter(a, b)
  {
  }

  lemma KeysFold(s: seq<byte>, t: seq<byte>, caseSensitive: bool)
    ensures Fold(s, caseSensitive) == Fold(t, caseSensitive) <==> SameKey(s, t, caseSensitive)
  {
    hide LowerByte, SameLetter;
    if !caseSensitive {
      forall i | 0 <= i < |s| && i < |t|
        ensures LowerByte(s[i]) == LowerByte(t[i]) <==> SameLetter(s[i], t[i])
      {
        LettersFold(s[i], t[i]);
      }
      if |s| == |t| && Lower(s) == Lower(t) {
        assert forall i :: 0 <= i < |s| ==> Lower(s)[i] == Lower(t)[i];
      }
    }
  }

  /** The first member with a key, or the number of members. */
  function Find(members: seq<Member>, key: seq<byte>, caseSensitive: bool): (i: nat)
    ensures i <= |members|
  {
    if members == [] || Fold(members[0].key, caseSensitive) == Fold(key, caseSensitive) then 0
    else 1 + Find(members[1..], key, caseSensitive)
  }

  lemma {:induction false} FindIsFirst(members: seq<Member>, key: seq<byte>, caseSensitive: bool)
    ensures var i := Find(members, key, caseSensitive);
            (i < |members| ==> Fold(members[i].key, caseSensitive) == Fold(key, caseSensitive))
            && (forall j :: 0 <= j < i ==> Fold(members[j].key, caseSensitive) != Fold(key, caseSensitive))
    decreases |members|
  {
    hide Fold;
    if members != [] {
      FindIsFirst(members[1..], key, caseSensitive);
    }
  }

  // ---- numbers

  const DBL_EPSILON: real := 1.0 / 4503599627370496.0

  function Magnitude(r: real): real {
    if r < 0.0 then -r else r
  }

  predicate CompareDouble(a: real, b: real) {
    var larger := if Magnitude(a) > Magnitude(b) then Magnitude(a) else Magnitude(b);
    Magnitude(a - b) <= larger * DBL_EPSILON
  }

  /** The tolerance is too small to confuse two 32-bit integers. */
  lemma IntsCompareExactly(a: real, b: real)
    requires IsInt(a) && IsInt(b)
    ensures CompareDouble(a, b) <==> a == b
  {
    var m, n := ValueInt(a), ValueInt(b);
    if m != n {
      assert Magnitude(a - b) >= 1.0;
      assert Magnitude(a) <= 2147483648.0 && Magnitude(b) <= 2147483648.0;
    }
  }

  /** Two numbers are taken for equal if they differ by at most the 2^52nd part of the larger magnitude. */
  lemma ToleranceIs(a: real, b: real)
    ensures CompareDouble(a, b) <==> Within(a, b, a) || Within(a, b, -a) || Within(a, b, b) || Within(a, b, -b)
  {
  }

  predicate Within(a: real, b: real, m: real) {
    -m <= (a - b) * 4503599627370496.0 <= m
  }

  // ---- values

  function Size(v: Json): (n: nat)
    ensures n > 0
    decreases v, 1
  {
    match v
    case Array(items) => 1 + ItemsSize(items)
    case Object(members) => 1 + MembersSize(members)
    case _ => 1
  }

  function ItemsSize(items: seq<Json>): nat
    decreases items, 0
  {
    if items == [] then 0 else Size(items[0]) + ItemsSize(items[1..])
  }

  function MembersSize(members: seq<Member>): nat
    decreases members, 0
  {
    if members == [] then 0 else Size(members[0].value) + MembersSize(members[1..])
  }

  lemma {:induction false} MemberIsSmaller(members: seq<Member>, i: nat)
    requires i < |members|
    ensures Size(members[i].value) <= MembersSize(members)
    decreases i
  {
    if i > 0 {
      MemberIsSmaller(members[1..], i - 1);
    }
  }

  lemma {:induction false} ItemIsSmaller(items: seq<Json>, i: nat)
    requires i < |items|
    ensures Size(items[i]) <= ItemsSize(items)
    decreases i
  {
    hide Size;
    if i > 0 {
      ItemIsSmaller(items[1..], i - 1);
    }
  }

  predicate Compare(a: Json, b: Json, caseSensitive: bool)
    decreases Size(a) + Size(b), 0
  {
    match (a, b)
    case (Null, Null) => true
    case (False, False) => true
    case (True, True) => true
    case (Number(x), Number(y)) => CompareDouble(x, y)
    case (String(s), String(t)) => s == t
    case (Array(xs), Array(ys)) => CompareItems(xs, ys, caseSensitive)
    case (Object(ms), Object(ns)) => AllMatch(ms, ns, caseSensitive) && AllMatch(ns, ms, caseSensitive)
    case _ => false
  }

  predicate CompareItems(xs: seq<Json>, ys: seq<Json>, caseSensitive: bool)
    decreases ItemsSize(xs) + ItemsSize(ys), 1, |xs|
  {
    if xs == [] || ys == [] then xs == ys
    else Compare(xs[0], ys[0], caseSensitive) && CompareItems(xs[1..], ys[1..], caseSensitive)
  }

  /** Every member of the first list equals the member of the second that its key finds. */
  predicate AllMatch(ms: seq<Member>, ns: seq<Member>, caseSensitive: bool)
    decreases MembersSize(ms) + MembersSize(ns), 1, |ms|
  {
    if ms == [] then true
    else
      var i := Find(ns, ms[0].key, caseSensitive);
      i < |ns|
      && (MemberIsSmaller(ns, i); Compare(ms[0].value, ns[i].value, caseSensitive))
      && AllMatch(ms[1..], ns, caseSensitive)
  }

  // ---- what it means: objects are unordered maps

  datatype Meaning =
    | MNull
    | MFalse
    | MTrue
    | MNumber(real)
    | MString(seq<byte>)
    | MArray(seq<Meaning>)
    | MObject(map<seq<byte>, Meaning>)

  function MeaningOf(v: Json, caseSensitive: bool): Meaning
    decreases v, 1
  {
    match v
    case Null => MNull
    case False => MFalse
    case True => MTrue
    case Number(r) => MNumber(r)
    case String(t) => MString(t)
    case Array(items) => MArray(ItemMeanings(items, caseSensitive))
    case Object(members) => MObject(MemberMeanings(members, caseSensitive))
  }

  function ItemMeanings(items: seq<Json>, caseSensitive: bool): seq<Meaning>
    decreases items, 0
  {
    if items == [] then [] else [MeaningOf(items[0], caseSensitive)] + ItemMeanings(items[1..], caseSensitive)
  }

  function MemberMeanings(members: seq<Member>, caseSensitive: bool): map<seq<byte>, Meaning>
    decreases members, 0
  {
    if members == [] then map[]
    else
      MemberMeanings(members[1..], caseSensitive)
        [Fold(members[0].key, caseSensitive) := MeaningOf(members[0].value, caseSensitive)]
  }

  /** All numbers are 32-bit integers and no object has a key twice. */
  predicate Comparable(v: Json, caseSensitive: bool)
    decreases v, 1
  {
    match v
    case Number(r) => IsInt(r)
    case Array(items) => ComparableItems(items, caseSensitive)
    case Object(members) => ComparableMembers(members, caseSensitive)
    case _ => true
  }

  predicate ComparableItems(items: seq<Json>, caseSensitive: bool)
    decreases items, 0
  {
    items == [] || (Comparable(items[0], caseSensitive) && ComparableItems(items[1..], caseSensitive))
  }

  predicate ComparableMembers(members: seq<Member>, caseSensitive: bool)
    decreases members, 0
  {
    members == []
    || (Comparable(members[0].value, caseSensitive)
        && Find(members[1..], members[0].key, caseSensitive) == |members| - 1
        && ComparableMembers(members[1..], caseSensitive))
  }

  /** The map has exactly the keys of the members, and the value of a key is its first member's. */
  lemma {:induction false} Lookup(members: seq<Member>, key: seq<byte>, caseSensitive: bool)
    ensures var m := MemberMeanings(members, caseSensitive);
            var i := Find(members, key, caseSensitive);
            (Fold(key, caseSensitive) in m <==> i < |members|)
            && (i < |members| ==> m[Fold(key, caseSensitive)] == MeaningOf(members[i].value, caseSensitive))
    decreases |members|
  {
    hide Fold, MeaningOf;
    if members != [] {
      Lookup(members[1..], key, caseSensitive);
    }
  }

  /** All numbers are 32-bit integers. */
  predicate AllInts(v: Json)
    decreases v
  {
    match v
    case Number(r) => IsInt(r)
    case Array(items) => forall i :: 0 <= i < |items| ==> AllInts(items[i])
    case Object(members) => forall i :: 0 <= i < |members| ==> AllInts(members[i].value)
    case _ => true
  }

  /** In every object each member has the meaning of the first member with its key: repetitions agree. */
  predicate Agree(v: Json, caseSensitive: bool)
    decreases v
  {
    match v
    case Array(items) => forall i :: 0 <= i < |items| ==> Agree(items[i], caseSensitive)
    case Object(members) =>
      forall i :: 0 <= i < |members| ==>
        Agree(members[i].value, caseSensitive) && AgreesAt(members, i, caseSensitive)
    case _ => true
  }

  predicate AgreesAt(members: seq<Member>, i: nat, caseSensitive: bool)
    requires i < |members|
  {
    var first := Find(members, members[i].key, caseSensitive);
    first < |members|
    && MeaningOf(members[first].value, caseSensitive) == MeaningOf(members[i].value, caseSensitive)
  }

  // ---- comparing, position by position

  lemma {:induction false} CompareEachItem(xs: seq<Json>, ys: seq<Json>, caseSensitive: bool)
    ensures CompareItems(xs, ys, caseSensitive) <==>
            |xs| == |ys| && forall i :: 0 <= i < |xs| ==> Compare(xs[i], ys[i], caseSensitive)
    decreases |xs|
  {
    hide Compare;
    if xs != [] && ys != [] {
      CompareEachItem(xs[1..], ys[1..], caseSensitive);
      assert forall i :: 0 < i < |xs| ==> xs[i] == xs[1..][i - 1];
      assert forall i :: 0 < i < |ys| ==> ys[i] == ys[1..][i - 1];
    }
  }

  lemma {:induction false} EachItemMeaning(items: seq<Json>, caseSensitive: bool)
    ensures var m := ItemMeanings(items, caseSensitive);
            |m| == |items| && forall i :: 0 <= i < |items| ==> m[i] == MeaningOf(items[i], caseSensitive)
    decreases |items|
  {
    hide MeaningOf;
    if items != [] {
      EachItemMeaning(items[1..], caseSensitive);
    }
  }

  predicate MatchesAt(ms: seq<Member>, ns: seq<Member>, i: nat, caseSensitive: bool)
    requires i < |ms|
  {
    var f := Find(ns, ms[i].key, caseSensitive);
    f < |ns| && Compare(ms[i].value, ns[f].value, caseSensitive)
  }

  lemma {:induction false} MatchEach(ms: seq<Member>, ns: seq<Member>, caseSensitive: bool)
    ensures AllMatch(ms, ns, caseSensitive) <==> forall i :: 0 <= i < |ms| ==> MatchesAt(ms, ns, i, caseSensitive)
    decreases |ms|
  {
    hide Compare, Find;
    if ms != [] {
      MatchEach(ms[1..], ns, caseSensitive);
      forall i | 0 < i < |ms|
        ensures MatchesAt(ms, ns, i, caseSensitive) <==> MatchesAt(ms[1..], ns, i - 1, caseSensitive)
      {
      }
      forall i | 0 <= i < |ms| - 1
        ensures MatchesAt(ms[1..], ns, i, caseSensitive) <==> MatchesAt(ms, ns, i + 1, caseSensitive)
      {
      }
      assert MatchesAt(ms, ns, 0, caseSensitive) || !MatchesAt(ms, ns, 0, caseSensitive);
    }
  }

  // ---- the exact condition

  /**
   * cJSON_Compare, on values with integer numbers: both agree with themselves where keys are repeated, and they
   * mean the same.
   */
  lemma {:induction false} CompareExactly(a: Json, b: Json, caseSensitive: bool)
    requires AllInts(a) && AllInts(b)
    ensures Compare(a, b, caseSensitive) <==>
            Agree(a, caseSensitive) && Agree(b, caseSensitive)
            && MeaningOf(a, caseSensitive) == MeaningOf(b, caseSensitive)
    decreases Size(a) + Size(b), 0
  {
    hide CompareItems, AllMatch, ItemMeanings, MemberMeanings, CompareDouble, IsInt, AgreesAt;
    match (a, b) {
      case (Number(x), Number(y)) => IntsCompareExactly(x, y);
      case (Array(xs), Array(ys)) =>
        CompareEachItem(xs, ys, caseSensitive);
        EachItemMeaning(xs, caseSensitive);
        EachItemMeaning(ys, caseSensitive);
        if |xs| == |ys| {
          forall i | 0 <= i < |xs|
            ensures Compare(xs[i], ys[i], caseSensitive) <==>
                    Agree(xs[i], caseSensitive) && Agree(ys[i], caseSensitive)
                    && MeaningOf(xs[i], caseSensitive) == MeaningOf(ys[i], caseSensitive)
          {
            ItemIsSmaller(xs, i);
            ItemIsSmaller(ys, i);
            CompareExactly(xs[i], ys[i], caseSensitive);
          }
        }
      case (Object(ms), Object(ns)) => ObjectsExactly(ms, ns, caseSensitive);
      case _ =>
    }
  }

  lemma {:induction false} ObjectsExactly(ms: seq<Member>, ns: seq<Member>, caseSensitive: bool)
    requires AllInts(Object(ms)) && AllInts(Object(ns))
    ensures AllMatch(ms, ns, caseSensitive) && AllMatch(ns, ms, caseSensitive) <==>
            Agree(Object(ms), caseSensitive) && Agree(Object(ns), caseSensitive)
            && MemberMeanings(ms, caseSensitive) == MemberMeanings(ns, caseSensitive)
    decreases MembersSize(ms) + MembersSize(ns) + 1
  {
    hide AllMatch, Compare, MemberMeanings, Agree, MeansAt, Find;
    MatchEach(ms, ns, caseSensitive);
    MatchEach(ns, ms, caseSensitive);
    forall i | 0 <= i < |ms|
      ensures MatchesAt(ms, ns, i, caseSensitive) <==> MeansAt(ms, ns, i, caseSensitive)
    {
      MatchMeans(ms, ns, i, caseSensitive);
    }
    forall i | 0 <= i < |ns|
      ensures MatchesAt(ns, ms, i, caseSensitive) <==> MeansAt(ns, ms, i, caseSensitive)
    {
      MatchMeans(ns, ms, i, caseSensitive);
    }
    MeaningsMatch(ms, ns, caseSensitive);
  }

  /** Member i agrees with itself and means what the member of the other list means that its key finds. */
  ghost predicate MeansAt(ms: seq<Member>, ns: seq<Member>, i: nat, caseSensitive: bool)
    requires i < |ms|
  {
    var f := Find(ns, ms[i].key, caseSensitive);
    f < |ns| && Agree(ms[i].value, caseSensitive) && Agree(ns[f].value, caseSensitive)
    && MeaningOf(ms[i].value, caseSensitive) == MeaningOf(ns[f].value, caseSensitive)
  }

  lemma {:induction false} MatchMeans(ms: seq<Member>, ns: seq<Member>, i: nat, caseSensitive: bool)
    requires AllInts(Object(ms)) && AllInts(Object(ns)) && i < |ms|
    ensures MatchesAt(ms, ns, i, caseSensitive) <==> MeansAt(ms, ns, i, caseSensitive)
    decreases MembersSize(ms) + MembersSize(ns), 1
  {
    hide Compare, Agree, MeaningOf, Find;
    var f := Find(ns, ms[i].key, caseSensitive);
    if f < |ns| {
      MemberIsSmaller(ms, i);
      MemberIsSmaller(ns, f);
      CompareExactly(ms[i].value, ns[f].value, caseSensitive);
    }
  }

  lemma {:induction false} FindsItself(members: seq<Member>, i: nat, caseSensitive: bool)
    requires i < |members|
    ensures Find(members, members[i].key, caseSensitive) <= i
    decreases i
  {
    hide Fold;
    if i > 0 {
      FindsItself(members[1..], i - 1, caseSensitive);
    }
  }

  lemma {:induction false} FindByFold(members: seq<Member>, j: seq<byte>, k: seq<byte>, caseSensitive: bool)
    requires Fold(j, caseSensitive) == Fold(k, caseSensitive)
    ensures Find(members, j, caseSensitive) == Find(members, k, caseSensitive)
    decreases |members|
  {
    hide Fold;
    if members != [] {
      FindByFold(members[1..], j, k, caseSensitive);
    }
  }

  lemma {:induction false} KeyHasMember(members: seq<Member>, k: seq<byte>, caseSensitive: bool) returns (i: nat)
    requires k in MemberMeanings(members, caseSensitive)
    ensures i < |members| && Fold(members[i].key, caseSensitive) == k
    decreases |members|
  {
    hide Fold, MeaningOf;
    if Fold(members[0].key, caseSensitive) == k {
      i := 0;
    } else {
      i := KeyHasMember(members[1..], k, caseSensitive);
      i := i + 1;
    }
  }

  /** If every member means what its key finds on the other side, repetitions on its own side agree. */
  lemma MatchedAgrees(ms: seq<Member>, ns: seq<Member>, i: nat, caseSensitive: bool)
    requires i < |ms| && forall j :: 0 <= j < |ms| ==> MeansAt(ms, ns, j, caseSensitive)
    ensures Agree(ms[i].value, caseSensitive) && AgreesAt(ms, i, caseSensitive)
  {
    hide Agree, MeaningOf, Find, Fold;
    var first := Find(ms, ms[i].key, caseSensitive);
    FindsItself(ms, i, caseSensitive);
    FindIsFirst(ms, ms[i].key, caseSensitive);
    FindByFold(ns, ms[first].key, ms[i].key, caseSensitive);
    assert MeansAt(ms, ns, i, caseSensitive) && MeansAt(ms, ns, first, caseSensitive);
  }

  lemma MatchedIsIncluded(ms: seq<Member>, ns: seq<Member>, k: seq<byte>, caseSensitive: bool)
    requires k in MemberMeanings(ms, caseSensitive)
    requires forall j :: 0 <= j < |ms| ==> MeansAt(ms, ns, j, caseSensitive)
    ensures k in MemberMeanings(ns, caseSensitive)
    ensures MemberMeanings(ns, caseSensitive)[k] == MemberMeanings(ms, caseSensitive)[k]
  {
    hide Agree, MeaningOf, Find, Fold, MemberMeanings;
    var i := KeyHasMember(ms, k, caseSensitive);
    MatchedAgrees(ms, ns, i, caseSensitive);
    Lookup(ms, ms[i].key, caseSensitive);
    Lookup(ns, ms[i].key, caseSensitive);
    assert MeansAt(ms, ns, i, caseSensitive);
  }

  lemma AgreeingMeans(ms: seq<Member>, ns: seq<Member>, i: nat, caseSensitive: bool)
    requires Agree(Object(ms), caseSensitive) && Agree(Object(ns), caseSensitive) && i < |ms|
    requires MemberMeanings(ms, caseSensitive) == MemberMeanings(ns, caseSensitive)
    ensures MeansAt(ms, ns, i, caseSensitive)
  {
    hide MeaningOf, Find, Fold, MemberMeanings;
    assert AgreesAt(ms, i, caseSensitive);
    FindsItself(ms, i, caseSensitive);
    Lookup(ms, ms[i].key, caseSensitive);
    Lookup(ns, ms[i].key, caseSensitive);
  }

  lemma MeaningsMatch(ms: seq<Member>, ns: seq<Member>, caseSensitive: bool)
    ensures (forall i :: 0 <= i < |ms| ==> MeansAt(ms, ns, i, caseSensitive))
            && (forall i :: 0 <= i < |ns| ==> MeansAt(ns, ms, i, caseSensitive)) <==>
            Agree(Object(ms), caseSensitive) && Agree(Object(ns), caseSensitive)
            && MemberMeanings(ms, caseSensitive) == MemberMeanings(ns, caseSensitive)
  {
    hide MeaningOf, Find, Fold, MemberMeanings, MeansAt, AgreesAt;
    var m, n := MemberMeanings(ms, caseSensitive), MemberMeanings(ns, caseSensitive);
    if (forall i :: 0 <= i < |ms| ==> MeansAt(ms, ns, i, caseSensitive))
       && (forall i :: 0 <= i < |ns| ==> MeansAt(ns, ms, i, caseSensitive)) {
      forall i | 0 <= i < |ms|
        ensures Agree(ms[i].value, caseSensitive) && AgreesAt(ms, i, caseSensitive)
      {
        MatchedAgrees(ms, ns, i, caseSensitive);
      }
      forall i | 0 <= i < |ns|
        ensures Agree(ns[i].value, caseSensitive) && AgreesAt(ns, i, caseSensitive)
      {
        MatchedAgrees(ns, ms, i, caseSensitive);
      }
      forall k | k in m
        ensures k in n && n[k] == m[k]
      {
        MatchedIsIncluded(ms, ns, k, caseSensitive);
      }
      forall k | k in n
        ensures k in m
      {
        MatchedIsIncluded(ns, ms, k, caseSensitive);
      }
      assert m == n;
    }
    if Agree(Object(ms), caseSensitive) && Agree(Object(ns), caseSensitive) && m == n {
      forall i | 0 <= i < |ms|
        ensures MeansAt(ms, ns, i, caseSensitive)
      {
        AgreeingMeans(ms, ns, i, caseSensitive);
      }
      forall i | 0 <= i < |ns|
        ensures MeansAt(ns, ms, i, caseSensitive)
      {
        AgreeingMeans(ns, ms, i, caseSensitive);
      }
    }
  }

  /** A value compares equal to itself exactly if its repeated keys agree. */
  lemma CompareToItself(v: Json, caseSensitive: bool)
    requires AllInts(v)
    ensures Compare(v, v, caseSensitive) <==> Agree(v, caseSensitive)
  {
    hide Compare, Agree, MeaningOf;
    CompareExactly(v, v, caseSensitive);
  }

  /** Comparing is symmetric and transitive, and reflexive exactly where repeated keys agree. */
  lemma CompareIsEquivalence(a: Json, b: Json, c: Json, caseSensitive: bool)
    requires AllInts(a) && AllInts(b) && AllInts(c)
    ensures Compare(a, a, caseSensitive) <==> Agree(a, caseSensitive)
    ensures Compare(a, b, caseSensitive) ==> Compare(b, a, caseSensitive)
    ensures Compare(a, b, caseSensitive) && Compare(b, c, caseSensitive) ==> Compare(a, c, caseSensitive)
  {
    hide Compare, MeaningOf, Agree;
    CompareExactly(a, a, caseSensitive);
    CompareExactly(a, b, caseSensitive);
    CompareExactly(b, a, caseSensitive);
    CompareExactly(b, c, caseSensitive);
    CompareExactly(a, c, caseSensitive);
  }

  /** Comparing is symmetric on all values, whatever their numbers and keys. */
  lemma {:induction false} CompareIsSymmetric(a: Json, b: Json, caseSensitive: bool)
    ensures Compare(a, b, caseSensitive) <==> Compare(b, a, caseSensitive)
    decreases Size(a), 0
  {
    hide CompareItems, AllMatch;
    if a.Array? && b.Array? {
      ItemsAreSymmetric(a.items, b.items, caseSensitive);
    }
  }

  lemma {:induction false} ItemsAreSymmetric(xs: seq<Json>, ys: seq<Json>, caseSensitive: bool)
    ensures CompareItems(xs, ys, caseSensitive) <==> CompareItems(ys, xs, caseSensitive)
    decreases ItemsSize(xs), 1
  {
    hide Compare;
    if xs != [] && ys != [] {
      CompareIsSymmetric(xs[0], ys[0], caseSensitive);
      ItemsAreSymmetric(xs[1..], ys[1..], caseSensitive);
    }
  }

  /** It is transitive on integers, but not on numbers this close: their tolerances add up. */
  lemma NumbersNotTransitive(caseSensitive: bool)
    ensures var a, b, c := Number(1.0), Number(1.0 + DBL_EPSILON), Number(1.0 + 2.0 * DBL_EPSILON);
            Compare(a, b, caseSensitive) && Compare(b, c, caseSensitive) && !Compare(a, c, caseSensitive)
  {
    Tolerance(1.0, 1.0 + DBL_EPSILON);
    Tolerance(1.0 + DBL_EPSILON, 1.0 + 2.0 * DBL_EPSILON);
    Tolerance(1.0, 1.0 + 2.0 * DBL_EPSILON);
  }

  lemma Tolerance(x: real, y: real)
    requires 0.0 < x < y
    ensures CompareDouble(x, y) <==> y - x <= y * DBL_EPSILON
  {
  }

  // ---- values without repeated keys

  lemma {:induction false} FoundOnlyThere(members: seq<Member>, i: nat, caseSensitive: bool)
    requires i < |members| && ComparableMembers(members, caseSensitive)
    ensures Find(members, members[i].key, caseSensitive) == i && Comparable(members[i].value, caseSensitive)
    decreases i
  {
    hide Comparable, Fold;
    if i > 0 {
      var first, key := members[0].key, members[i].key;
      FoundOnlyThere(members[1..], i - 1, caseSensitive);
      if Fold(first, caseSensitive) == Fold(key, caseSensitive) {
        FindByFold(members[1..], first, key, caseSensitive);
      }
    }
  }

  lemma {:induction false} ItemIsComparable(items: seq<Json>, i: nat, caseSensitive: bool)
    requires i < |items| && ComparableItems(items, caseSensitive)
    ensures Comparable(items[i], caseSensitive)
    decreases i
  {
    hide Comparable;
    if i > 0 {
      ItemIsComparable(items[1..], i - 1, caseSensitive);
    }
  }

  lemma {:induction false} ComparableAgrees(v: Json, caseSensitive: bool)
    requires Comparable(v, caseSensitive)
    ensures AllInts(v) && Agree(v, caseSensitive)
    decreases v
  {
    hide ComparableItems, ComparableMembers, MeaningOf, Find;
    match v {
      case Array(items) =>
        forall i | 0 <= i < |items|
          ensures AllInts(items[i]) && Agree(items[i], caseSensitive)
        {
          ItemIsComparable(items, i, caseSensitive);
          ComparableAgrees(items[i], caseSensitive);
        }
      case Object(members) =>
        forall i | 0 <= i < |members|
          ensures AllInts(members[i].value) && Agree(members[i].value, caseSensitive)
          ensures AgreesAt(members, i, caseSensitive)
        {
          FoundOnlyThere(members, i, caseSensitive);
          ComparableAgrees(members[i].value, caseSensitive);
        }
      case _ =>
    }
  }

  /** Without repeated keys, comparing is equality of meanings. */
  lemma CompareIsEquality(a: Json, b: Json, caseSensitive: bool)
    requires Comparable(a, caseSensitive) && Comparable(b, caseSensitive)
    ensures Compare(a, b, caseSensitive) <==> MeaningOf(a, caseSensitive) == MeaningOf(b, caseSensitive)
  {
    hide Compare, MeaningOf, Agree, Comparable;
    ComparableAgrees(a, caseSensitive);
    ComparableAgrees(b, caseSensitive);
    CompareExactly(a, b, caseSensitive);
  }

  /** A repeated key alone does no harm, and may do: it depends on the two values. */
  lemma RepeatedKey(key: seq<byte>, v: Json, w: Json, caseSensitive: bool)
    requires AllInts(v) && AllInts(w)
    ensures var twice := Object([Member(key, v), Member(key, w)]);
            Compare(twice, twice, caseSensitive) <==> Compare(v, w, caseSensitive)
  {
    hide Compare, MeaningOf, AgreesAt;
    var members := [Member(key, v), Member(key, w)];
    CompareToItself(Object(members), caseSensitive);
    CompareExactly(v, w, caseSensitive);
    AgreesWithFirst(members, 0, caseSensitive);
    AgreesWithFirst(members, 1, caseSensitive);
  }

  lemma AgreesWithFirst(members: seq<Member>, i: nat, caseSensitive: bool)
    requires i < |members| && members[i].key == members[0].key
    ensures AgreesAt(members, i, caseSensitive) <==>
            MeaningOf(members[0].value, caseSensitive) == MeaningOf(members[i].value, caseSensitive)
  {
    hide MeaningOf;
  }

  /** For instance, {"a":null,"a":true} does not equal itself. */
  lemma RepeatedKeyNotReflexive()
    ensures var v := Object([Member([LOWER_A], Null), Member([LOWER_A], True)]);
            !Compare(v, v, true)
  {
    RepeatedKey([LOWER_A], Null, True, true);
  }
}
