/** Surgery on child lists: append, detach, insert and replace. */
module JsonSiblings {
  import opened JsonText
  import opened JsonValue
  import opened JsonNode
  import opened JsonLinks

  /** A tree that can become a child of the node. */
  ghost predicate Apart(parent: Node, item: Node)
    reads parent`repr, item`repr
  {
    item in item.repr && item.repr !! parent.repr
  }

  /** `get_array_item`: the child at an index, NULL beyond the end. */
  method GetArrayItem(parent: Node?, index: nat) returns (item: Node?)
    requires parent != null ==> parent.Family()
    ensures item == if parent == null || index >= |parent.kids| then null else parent.kids[index]
  {
    if parent == null {
      return null;
    }
    item := parent.child;
    var left: nat := index;
    ghost var i: nat := 0;
    while item != null && left > 0
      invariant i + left == index && i <= |parent.kids|
      invariant item == if i < |parent.kids| then parent.kids[i] else null
      decreases left
    {
      assert i < |parent.kids|;
      left := left - 1;
      item := item.next;
      i := i + 1;
    }
    assert i < |parent.kids| ==> item != null;
  }

  /** The nodes of one child's tree are not among its siblings. */
  lemma SiblingsAreElsewhere(parent: Node)
    requires parent.Family()
    ensures forall n, m: Node :: n in parent.kids && m in parent.kids && n != m ==> m !in n.repr
    ensures forall n: Node :: n in parent.kids ==> n in n.repr && n in parent.repr && parent !in n.repr
  {
  }

  /** Nor is an item whose tree is apart. */
  lemma TreesAreElsewhere(parent: Node, item: Node)
    requires parent.Family()
    ensures parent in parent.repr && parent !in parent.kids
    ensures (Apart(parent, item) ==> item != parent && item !in parent.kids)
    ensures Apart(parent, item) ==> forall n: Node :: n in parent.kids || n == item ==>
              n in n.repr && parent !in n.repr && (n != item ==> item !in n.repr)
    ensures Apart(parent, item) ==>
              forall n, m: Node :: (n in parent.kids || n == item) && m in parent.kids && n != m ==>
              m !in n.repr
  {
  }

  lemma StandsForArray(parent: Node, items: seq<Json>)
    requires parent.Family() && parent.kind == ArrayKind && |parent.kids| == |items|
    requires forall i :: 0 <= i < |items| ==> parent.kids[i].Holds(items[i])
    ensures parent.Holds(Array(items))
  {
  }

  lemma StandsForObject(parent: Node, members: seq<Member>)
    requires parent.Family() && parent.kind == ObjectKind && |parent.kids| == |members|
    requires forall i :: 0 <= i < |members| ==>
               parent.kids[i].name == Chars(members[i].key) && parent.kids[i].Holds(members[i].value)
    ensures parent.Holds(Object(members))
  {
  }

  lemma ArrayValues(parent: Node)
    ensures forall items :: parent.Holds(Array(items)) ==>
              parent.kind == ArrayKind && |items| == |parent.kids|
              && forall i :: 0 <= i < |items| ==> parent.kids[i].Holds(items[i])
  {
  }

  lemma ObjectValues(parent: Node)
    ensures forall members: seq<Member> :: parent.Holds(Object(members)) ==>
              parent.kind == ObjectKind && |members| == |parent.kids|
              && forall i :: 0 <= i < |members| ==>
                   parent.kids[i].name == Chars(members[i].key) && parent.kids[i].Holds(members[i].value)
  {
  }

  lemma FamilyParts(parent: Node)
    requires parent.Family()
    ensures parent in parent.repr && Linked(parent.kids) && Separate(parent.kids, parent.repr - {parent})
    ensures if parent.kids == [] then parent.child == null else parent.child == parent.kids[0]
  {
  }

  /** A family, part by part. */
  ghost predicate FamilyOf(parent: Node, kids: seq<Node>, repr: set<Node>)
    reads parent`child, kids
  {
    parent in repr && Linked(kids) && Separate(kids, repr - {parent})
    && parent.child == if kids == [] then null else kids[0]
  }

  lemma FamilyIs(parent: Node)
    ensures parent.Family() <==> FamilyOf(parent, parent.kids, parent.repr)
  {
    hide Linked;
    if Separate(parent.kids, parent.repr - {parent}) {
      KidsAreBelow(parent.kids, parent.repr - {parent});
    }
  }

  lemma SeparateWithout(kids: seq<Node>, below: set<Node>, k: nat)
    requires Separate(kids, below) && k < |kids|
    ensures Separate(Without(kids, k), below - kids[k].repr)
  {
  }

  lemma SeparateInserted(kids: seq<Node>, below: set<Node>, k: nat, item: Node)
    requires Separate(kids, below) && k <= |kids| && item in item.repr && item.repr !! below
    ensures Separate(Inserted(kids, k, item), below + item.repr)
  {
  }

  lemma SeparateBehind(kids: seq<Node>, below: set<Node>, item: Node)
    requires Separate(kids, below) && item in item.repr && item.repr !! below
    ensures Separate(kids + [item], below + item.repr)
  {
  }

  lemma FamilyIsLinked(parent: Node)
    ensures parent.Family() ==> Linked(parent.kids)
  {
  }

  lemma SeparateReplaced(kids: seq<Node>, below: set<Node>, k: nat, replacement: Node)
    requires Separate(kids, below) && k < |kids| && replacement in replacement.repr && replacement.repr !! below
    ensures Separate(kids[k := replacement], below - kids[k].repr + replacement.repr)
  {
  }

  /** Whatever array the parent stood for, it now stands for that array with the item's value at the end. */
  twostate predicate AppendsItem(parent: Node, item: Node)
    reads parent, parent.repr
  {
    forall items, v :: old(parent.Holds(Array(items))) && old(item.Holds(v)) ==> parent.Holds(Array(items + [v]))
  }

  /** The same for an object, the item's name being the new key. */
  twostate predicate AppendsMember(parent: Node, item: Node)
    reads parent, parent.repr
  {
    forall members, m: Member ::
      old(parent.Holds(Object(members))) && old(item.Holds(m.value)) && old(item.name) == Chars(m.key) ==>
        parent.Holds(Object(members + [m]))
  }

  /** What makes the children with the item at the end a list. */
  predicate Appendable(kids: seq<Node>, item: Node)
    reads item`next
  {
    kids == [] || (item !in kids && item.next == null)
  }

  /** The links of an append; if the item's tree is apart, nothing changes in the trees of the children. */
  method AppendLinked(parent: Node, item: Node)
    requires parent.Family() && parent != item
    modifies parent`child, parent`kids, parent`repr, item`next, item`prev, parent.kids`next, parent.kids`prev
    ensures parent.kids == old(parent.kids) + [item] && parent.repr == old(parent.repr) + item.repr
    ensures Linked(parent.kids) <==> old(Appendable(parent.kids, item))
    ensures !Linked(parent.kids) ==> forall ks :: ks != [] && ks[0] == parent.child ==> !Linked(ks)
    ensures old(parent.kids) != [] && item == old(parent.kids[|parent.kids| - 1]) ==> item.next == item
    ensures old(Apart(parent, item)) ==> (parent.Family() <==> Linked(parent.kids))
    ensures old(Apart(parent, item)) ==> forall n: Node, v :: n in parent.kids && old(n.Holds(v)) ==> n.Holds(v)
  {
    hide Linked, Chained, Separate, Node.Holds, Node.Family;
    TreesAreElsewhere(parent, item);
    FamilyParts(parent);
    LinkLast(parent, item, parent.kids);
    if Apart(parent, item) {
      SeparateBehind(parent.kids, parent.repr - {parent}, item);
      assert (parent.repr + item.repr) - {parent} == parent.repr - {parent} + item.repr;
    }
    parent.kids := parent.kids + [item];
    parent.repr := parent.repr + item.repr;
    FamilyIs(parent);
  }

  /** The children's values after an append are the old ones and the new one. */
  method Append(parent: Node, item: Node)
    requires parent.Family() && parent != item
    modifies parent`child, parent`kids, parent`repr, item`next, item`prev, parent.kids`next, parent.kids`prev
    ensures parent.kids == old(parent.kids) + [item] && parent.repr == old(parent.repr) + item.repr
    ensures Linked(parent.kids) <==> old(Appendable(parent.kids, item))
    ensures !Linked(parent.kids) ==> forall ks :: ks != [] && ks[0] == parent.child ==> !Linked(ks)
    ensures old(parent.kids) != [] && item == old(parent.kids[|parent.kids| - 1]) ==> item.next == item
    ensures old(Apart(parent, item)) ==> (parent.Family() <==> Linked(parent.kids))
    ensures old(Apart(parent, item)) && parent.Family() ==> AppendsItem(parent, item) && AppendsMember(parent, item)
  {
    hide Node.Holds, Node.Family, Linked;
    ArrayValues(parent);
    ObjectValues(parent);
    AppendLinked(parent, item);
    if old(Apart(parent, item)) && parent.Family() {
      forall items, v | old(parent.Holds(Array(items))) && old(item.Holds(v))
        ensures parent.Holds(Array(items + [v]))
      {
        StandsForArray(parent, items + [v]);
      }
      forall members, m: Member |
        old(parent.Holds(Object(members))) && old(item.Holds(m.value)) && old(item.name) == Chars(m.key)
        ensures parent.Holds(Object(members + [m]))
      {
        StandsForObject(parent, members + [m]);
      }
    }
  }

  /**
   * `add_item_to_array`. A non-empty list takes the new item's `next` as it is, so the children are a list exactly
   * if the item is none of them and came without a successor; otherwise no list starts at `child`. An item whose
   * tree is apart adds its value at the end.
   */
  method AddItemToArray(parent: Node?, item: Node?) returns (ok: bool)
    requires parent != null ==> parent.Family()
    modifies if parent != null && item != null && parent != item
             then {parent, item} + (set k | k in parent.kids) else {}
    ensures ok == (parent != null && item != null && parent != item)
    ensures ok ==>
              parent.kids == old(parent.kids) + [item] && parent.repr == old(parent.repr) + old(item.repr)
              && (Linked(parent.kids) <==> old(Appendable(parent.kids, item)))
              && (!Linked(parent.kids) ==> forall ks :: ks != [] && ks[0] == parent.child ==> !Linked(ks))
              && (old(parent.kids) != [] && item == old(parent.kids[|parent.kids| - 1]) ==> item.next == item)
    ensures ok && old(Apart(parent, item)) ==> (parent.Family() <==> Linked(parent.kids))
    ensures ok && old(Apart(parent, item)) && parent.Family() ==>
              AppendsItem(parent, item) && AppendsMember(parent, item)
  {
    hide Node.Holds, Node.Family, Linked, AppendsItem, AppendsMember;
    if item == null || parent == null || parent == item {
      return false;
    }
    Append(parent, item);
    ok := true;
  }

  /** A child appended to its own list leaves no list; if it was the last one, it follows itself. */
  method AppendOwnChild(parent: Node, child: Node, ghost k: nat)
    requires parent.Family() && k < |parent.kids| && child == parent.kids[k]
    modifies {parent} + (set n | n in parent.kids)
    ensures parent.kids == old(parent.kids) + [child] && !parent.Family()
    ensures forall ks :: ks != [] && ks[0] == parent.child ==> !Linked(ks)
    ensures k == |old(parent.kids)| - 1 ==> child.next == child
  {
    hide Node.Holds, Node.Family, Linked, AppendsItem, AppendsMember;
    SiblingsAreElsewhere(parent);
    var ok := AddItemToArray(parent, child);
    FamilyIsLinked(parent);
  }

  /** A child with a successor, appended to another list that is not empty, breaks that list. */
  method AppendAnothersChild(parent: Node, child: Node, ghost other: Node, ghost k: nat)
    requires parent.Family() && other.Family() && parent.repr !! other.repr && parent.kids != []
    requires k + 1 < |other.kids| && child == other.kids[k]
    modifies {parent, child} + (set n | n in parent.kids)
    ensures parent.kids == old(parent.kids) + [child] && !parent.Family()
  {
    hide Node.Holds, AppendsItem, AppendsMember;
    ChildIsApart(parent, other, k);
    var ok := AddItemToArray(parent, child);
  }

  lemma ChildIsApart(parent: Node, other: Node, k: nat)
    requires parent.Family() && other.Family() && parent.repr !! other.repr && k + 1 < |other.kids|
    ensures Apart(parent, other.kids[k]) && parent != other.kids[k] && other.kids[k].next != null
    ensures parent.kids != [] ==> other.kids[k] !in parent.kids
  {
    hide Node.Holds;
    var next: Node? := other.kids[k + 1];
    assert other.kids[k].next == next;
  }

  lemma NewNode(node: Node)
    requires node.kids == [] && node.child == null && node.repr == {node}
    ensures node.Family()
  {
  }

  /** A node with one new child. */
  method ListOfOne() returns (list: Node, only: Node)
    ensures fresh(list) && fresh(only) && list != only && list.Family()
    ensures list.kids == [only] && list.repr == {list, only} && only.repr == {only} && only.next == null
  {
    hide Node.Holds, Node.Family, AppendsItem, AppendsMember;
    list := new Node();
    only := new Node();
    NewNode(list);
    var ok := AddItemToArray(list, only);
    FamilyParts(list);
    LastHasNoNext(list.kids);
  }

  lemma LastHasNoNext(kids: seq<Node>)
    requires Linked(kids) && kids != []
    ensures kids[|kids| - 1].next == null
  {
  }

  /** A second child behind it. */
  method ListOfTwo() returns (list: Node, first: Node)
    ensures fresh(list) && fresh(list.repr) && fresh(first) && list.Family() && |list.kids| == 2
    ensures list.kids[0] == first
  {
    hide Node.Holds, Node.Family, AppendsItem, AppendsMember;
    list, first := ListOfOne();
    var second := new Node();
    var ok := AddItemToArray(list, second);
  }

  /** The smallest such case: the first of two children of one node, appended to a node with one child. */
  method BrokenList() returns (list: Node)
    ensures |list.kids| == 2 && !list.Family()
  {
    hide Node.Holds, Node.Family, AppendsItem, AppendsMember;
    var pair, first := ListOfTwo();
    var only;
    list, only := ListOfOne();
    AppendAnothersChild(list, first, pair, 0);
  }

  /** And the smallest of an own child: the only one, appended again, follows itself. */
  method AppendedAgain() returns (list: Node, only: Node)
    ensures list.kids == [only, only] && only.next == only
    ensures forall ks :: ks != [] && ks[0] == list.child ==> !Linked(ks)
  {
    hide Node.Holds, Node.Family, Linked, AppendsItem, AppendsMember;
    list, only := ListOfOne();
    AppendOwnChild(list, only, 0);
  }

  /** A removal changes nothing in the trees of the children. */
  method Remove(parent: Node, item: Node, ghost k: nat)
    requires parent.Family() && k < |parent.kids| && parent.kids[k] == item
    modifies parent`child, parent`kids, parent`repr, parent.kids`next, parent.kids`prev
    ensures parent.kids == Without(old(parent.kids), k) && parent.repr == old(parent.repr) - item.repr
    ensures parent.Family() && item.next == null && item.prev == null
    ensures forall n: Node, v :: n in old(parent.kids) && old(n.Holds(v)) ==> n.Holds(v)
  {
    hide Linked, Chained, Separate, Node.Holds, Node.Family;
    SiblingsAreElsewhere(parent);
    FamilyParts(parent);
    SeparateWithout(parent.kids, parent.repr - {parent}, k);
    Unlink(parent, item, parent.kids, k);
    assert (parent.repr - item.repr) - {parent} == parent.repr - {parent} - item.repr;
    parent.kids := Without(parent.kids, k);
    parent.repr := parent.repr - item.repr;
    FamilyIs(parent);
  }

  lemma ArrayWithout(parent: Node, before: seq<Node>, k: nat, items: seq<Json>)
    requires k < |before| == |items| && parent.kids == Without(before, k)
    requires parent.Family() && parent.kind == ArrayKind
    requires forall j :: 0 <= j < |items| ==> before[j].Holds(items[j])
    ensures parent.Holds(Array(Without(items, k)))
  {
    hide Node.Holds, Node.Family;
    StandsForArray(parent, Without(items, k));
  }

  lemma ObjectWithout(parent: Node, before: seq<Node>, k: nat, members: seq<Member>)
    requires k < |before| == |members| && parent.kids == Without(before, k)
    requires parent.Family() && parent.kind == ObjectKind
    requires forall j :: 0 <= j < |members| ==>
               before[j].name == Chars(members[j].key) && before[j].Holds(members[j].value)
    ensures parent.Holds(Object(Without(members, k)))
  {
    hide Node.Holds, Node.Family;
    StandsForObject(parent, Without(members, k));
  }

  /** `cJSON_DetachItemViaPointer`: the children without the one at k, which is now on its own. */
  method DetachItemViaPointer(parent: Node?, item: Node?, ghost k: nat) returns (detached: Node?)
    requires parent != null && item != null ==> parent.Family() && k < |parent.kids| && parent.kids[k] == item
    modifies if parent != null && item != null then {parent} + (set n | n in parent.kids) else {}
    ensures detached == if parent == null then null else item
    ensures detached != null ==>
              parent.kids == Without(old(parent.kids), k) && parent.repr == old(parent.repr) - item.repr
              && parent.Family() && item.next == null && item.prev == null
    ensures detached != null ==>
              forall items :: old(parent.Holds(Array(items))) ==>
                k < |items| && parent.Holds(Array(Without(items, k))) && item.Holds(items[k])
    ensures detached != null ==>
              forall members: seq<Member> :: old(parent.Holds(Object(members))) ==>
                k < |members| && parent.Holds(Object(Without(members, k))) && item.Holds(members[k].value)
  {
    hide Node.Holds, Node.Family, Without;
    if parent == null || item == null {
      return null;
    }
    ArrayValues(parent);
    ObjectValues(parent);
    ghost var before := parent.kids;
    Remove(parent, item, k);
    detached := item;
    forall items | old(parent.Holds(Array(items)))
      ensures k < |items| && parent.Holds(Array(Without(items, k))) && item.Holds(items[k])
    {
      ArrayWithout(parent, before, k, items);
    }
    forall members: seq<Member> | old(parent.Holds(Object(members)))
      ensures k < |members| && parent.Holds(Object(Without(members, k))) && item.Holds(members[k].value)
    {
      ObjectWithout(parent, before, k, members);
    }
  }

  /** The links of an insertion. */
  method Insert(parent: Node, after: Node, item: Node, ghost k: nat)
    requires parent.Family() && k < |parent.kids| && parent.kids[k] == after
    modifies parent`child, parent`kids, parent`repr, item`next, item`prev, parent.kids`next, parent.kids`prev
    ensures parent.kids == Inserted(old(parent.kids), k, item) && parent.repr == old(parent.repr) + item.repr
    ensures Linked(parent.kids) <==> item !in old(parent.kids)
    ensures item in old(parent.kids) ==> forall ks :: ks != [] && ks[0] == parent.child ==> !Linked(ks)
    ensures old(Apart(parent, item)) ==> parent.Family()
  {
    hide Linked, Chained, Separate, Inserted, Node.Holds, Node.Family;
    TreesAreElsewhere(parent, item);
    FamilyParts(parent);
    InsertedAt(parent.kids, k, item, 0);
    LinkBefore(parent, after, item, parent.kids, k);
    if Apart(parent, item) {
      SeparateInserted(parent.kids, parent.repr - {parent}, k, item);
      assert (parent.repr + item.repr) - {parent} == parent.repr - {parent} + item.repr;
    }
    parent.kids := Inserted(parent.kids, k, item);
    parent.repr := parent.repr + item.repr;
    FamilyIs(parent);
  }

  /** Whatever array the parent stood for, it now stands for that array with the item's value at k. */
  twostate predicate InsertsItem(parent: Node, item: Node, k: nat)
    reads parent, parent.repr
  {
    forall items, v :: old(parent.Holds(Array(items))) && old(item.Holds(v)) ==>
      k <= |items| && parent.Holds(Array(Inserted(items, k, v)))
  }

  twostate predicate InsertsMember(parent: Node, item: Node, k: nat)
    reads parent, parent.repr
  {
    forall members, m: Member ::
      old(parent.Holds(Object(members))) && old(item.Holds(m.value)) && old(item.name) == Chars(m.key) ==>
        k <= |members| && parent.Holds(Object(Inserted(members, k, m)))
  }

  lemma ArrayWith(parent: Node, before: seq<Node>, item: Node, k: nat, items: seq<Json>, v: Json)
    requires k <= |before| == |items| && parent.kids == Inserted(before, k, item)
    requires parent.Family() && parent.kind == ArrayKind && item.Holds(v)
    requires forall j :: 0 <= j < |items| ==> before[j].Holds(items[j])
    ensures parent.Holds(Array(Inserted(items, k, v)))
  {
    hide Node.Holds, Node.Family, Inserted;
    InsertedAt(before, k, item, 0);
    InsertedAt(items, k, v, 0);
    forall i: nat | i <= |items|
      ensures parent.kids[i].Holds(Inserted(items, k, v)[i])
    {
      InsertedAt(before, k, item, i);
      InsertedAt(items, k, v, i);
    }
    StandsForArray(parent, Inserted(items, k, v));
  }

  lemma ObjectWith(parent: Node, before: seq<Node>, item: Node, k: nat, members: seq<Member>, m: Member)
    requires k <= |before| == |members| && parent.kids == Inserted(before, k, item)
    requires parent.Family() && parent.kind == ObjectKind && item.Holds(m.value) && item.name == Chars(m.key)
    requires forall j :: 0 <= j < |members| ==>
               before[j].name == Chars(members[j].key) && before[j].Holds(members[j].value)
    ensures parent.Holds(Object(Inserted(members, k, m)))
  {
    hide Node.Holds, Node.Family, Inserted;
    InsertedAt(before, k, item, 0);
    InsertedAt(members, k, m, 0);
    forall i: nat | i <= |members|
      ensures parent.kids[i].name == Chars(Inserted(members, k, m)[i].key)
              && parent.kids[i].Holds(Inserted(members, k, m)[i].value)
    {
      InsertedAt(before, k, item, i);
      InsertedAt(members, k, m, i);
    }
    StandsForObject(parent, Inserted(members, k, m));
  }

  /** The children's values after an insertion. */
  method InsertAt(parent: Node, after: Node, item: Node, k: nat)
    requires parent.Family() && k < |parent.kids| && parent.kids[k] == after
    modifies parent`child, parent`kids, parent`repr, item`next, item`prev, parent.kids`next, parent.kids`prev
    ensures parent.kids == Inserted(old(parent.kids), k, item) && parent.repr == old(parent.repr) + item.repr
    ensures Linked(parent.kids) <==> item !in old(parent.kids)
    ensures item in old(parent.kids) ==> forall ks :: ks != [] && ks[0] == parent.child ==> !Linked(ks)
    ensures old(Apart(parent, item)) ==>
              parent.Family() && InsertsItem(parent, item, k) && InsertsMember(parent, item, k)
  {
    hide Node.Holds, Node.Family, Inserted, Linked;
    ArrayValues(parent);
    ObjectValues(parent);
    ghost var before := parent.kids;
    TreesAreElsewhere(parent, item);
    Insert(parent, after, item, k);
    if old(Apart(parent, item)) {
      forall n: Node, v | (n in before || n == item) && old(n.Holds(v))
        ensures n.Holds(v)
      {
        assert parent !in n.repr && item !in n.repr - {n} && forall m :: m in before && m != n ==> m !in n.repr;
        assert unchanged(n.repr - {n});
      }
      forall items, v | old(parent.Holds(Array(items))) && old(item.Holds(v))
        ensures k <= |items| && parent.Holds(Array(Inserted(items, k, v)))
      {
        ArrayWith(parent, before, item, k, items, v);
      }
      forall members, m: Member |
        old(parent.Holds(Object(members))) && old(item.Holds(m.value)) && old(item.name) == Chars(m.key)
        ensures k <= |members| && parent.Holds(Object(Inserted(members, k, m)))
      {
        ObjectWith(parent, before, item, k, members, m);
      }
    }
  }

  /**
   * `cJSON_InsertItemInArray`: in front of the child at the index, or at the end if there is none. The children are
   * a list afterwards exactly if the item was none of them, at the end only if it came without a successor too.
   * The test for a child without predecessor is left out: in a list every child has one.
   */
  method InsertItemInArray(parent: Node?, which: int, item: Node?) returns (ok: bool)
    requires parent != null ==> parent.Family()
    modifies if parent != null && item != null then {parent, item} + (set n | n in parent.kids) else {}
    ensures ok == (which >= 0 && item != null && parent != null && (parent != item || which < old(|parent.kids|)))
    ensures ok ==>
              parent.kids
              == Inserted(old(parent.kids), if which < old(|parent.kids|) then which else old(|parent.kids|), item)
    ensures ok ==>
              (Linked(parent.kids) <==>
               if which < old(|parent.kids|) then item !in old(parent.kids) else old(Appendable(parent.kids, item)))
              && (!Linked(parent.kids) ==> forall ks :: ks != [] && ks[0] == parent.child ==> !Linked(ks))
    ensures ok && old(Apart(parent, item)) ==> (parent.Family() <==> Linked(parent.kids))
    ensures ok && old(Apart(parent, item)) && which < old(|parent.kids|) ==>
              InsertsItem(parent, item, which) && InsertsMember(parent, item, which)
    ensures ok && old(Apart(parent, item)) && which >= old(|parent.kids|) && parent.Family() ==>
              AppendsItem(parent, item) && AppendsMember(parent, item)
  {
    hide Node.Holds, Node.Family, Linked;
    if which < 0 || item == null {
      return false;
    }
    var after := GetArrayItem(parent, which);
    if after == null {
      ok := AddItemToArray(parent, item);
      return;
    }
    label Found:
    InsertAt(parent, after, item, which);
    FamilyIsLinked(parent);
    ok := true;
    forall items, v | old(Apart(parent, item)) && old(parent.Holds(Array(items))) && old(item.Holds(v))
      ensures which <= |items| && parent.Holds(Array(Inserted(items, which, v)))
    {
      assert old@Found(parent.Holds(Array(items))) && old@Found(item.Holds(v));
    }
    forall members, m: Member |
      old(Apart(parent, item)) && old(parent.Holds(Object(members)))
      && old(item.Holds(m.value)) && old(item.name) == Chars(m.key)
      ensures which <= |members| && parent.Holds(Object(Inserted(members, which, m)))
    {
      assert old@Found(parent.Holds(Object(members))) && old@Found(item.Holds(m.value));
    }
  }

  /** The links of a replacement. */
  method Replace(parent: Node, item: Node, replacement: Node, ghost k: nat)
    requires parent.Family() && k < |parent.kids| && parent.kids[k] == item != replacement
    modifies parent`child, parent`kids, parent`repr
    modifies replacement`next, replacement`prev, parent.kids`next, parent.kids`prev
    ensures parent.kids == old(parent.kids)[k := replacement]
    ensures parent.repr == old(parent.repr) - item.repr + replacement.repr
    ensures item.next == null && item.prev == null
    ensures Linked(parent.kids) <==> replacement !in old(parent.kids)
    ensures FirstForLast(old(parent.kids), k, replacement) ==> Linked([replacement]) && parent.child == replacement
    ensures replacement in old(parent.kids) && !FirstForLast(old(parent.kids), k, replacement) ==>
              forall ks :: ks != [] && ks[0] == parent.child ==> !Linked(ks)
    ensures old(Apart(parent, replacement)) ==> parent.Family()
  {
    hide Linked, Chained, Separate, Node.Holds, Node.Family;
    TreesAreElsewhere(parent, replacement);
    FamilyParts(parent);
    Relink(parent, item, replacement, parent.kids, k);
    if Apart(parent, replacement) {
      SeparateReplaced(parent.kids, parent.repr - {parent}, k, replacement);
      assert (parent.repr - item.repr + replacement.repr) - {parent}
          == parent.repr - {parent} - item.repr + replacement.repr;
    }
    parent.kids := parent.kids[k := replacement];
    parent.repr := parent.repr - item.repr + replacement.repr;
    FamilyIs(parent);
  }

  lemma FirstIsNotLast(parent: Node, k: nat)
    requires parent.Family() && k < |parent.kids|
    ensures Linked(parent.kids) && !FirstForLast(parent.kids, k, parent.kids[k])
  {
  }

  /** Whatever array the parent stood for, it now stands for that array with the replacement's value at k. */
  twostate predicate ReplacesItem(parent: Node, replacement: Node, k: nat)
    reads parent, parent.repr
  {
    forall items, v :: old(parent.Holds(Array(items))) && old(replacement.Holds(v)) ==>
      k < |items| && parent.Holds(Array(items[k := v]))
  }

  twostate predicate ReplacesMember(parent: Node, replacement: Node, k: nat)
    reads parent, parent.repr
  {
    forall members: seq<Member>, m: Member ::
      old(parent.Holds(Object(members))) && old(replacement.Holds(m.value)) && old(replacement.name) == Chars(m.key) ==>
        k < |members| && parent.Holds(Object(members[k := m]))
  }

  lemma HasFirstChild(parent: Node)
    requires parent.Family()
    ensures parent.child == null <==> parent.kids == []
  {
  }

  lemma ArrayReplaced(parent: Node, k: nat, items: seq<Json>, v: Json)
    requires k < |items| == |parent.kids| && parent.Family() && parent.kind == ArrayKind && parent.kids[k].Holds(v)
    requires forall j :: 0 <= j < |items| && j != k ==> parent.kids[j].Holds(items[j])
    ensures parent.Holds(Array(items[k := v]))
  {
    hide Node.Holds, Node.Family;
    StandsForArray(parent, items[k := v]);
  }

  lemma ObjectReplaced(parent: Node, k: nat, members: seq<Member>, m: Member)
    requires k < |members| == |parent.kids| && parent.Family() && parent.kind == ObjectKind
    requires parent.kids[k].name == Chars(m.key) && parent.kids[k].Holds(m.value)
    requires forall j :: 0 <= j < |members| && j != k ==>
               parent.kids[j].name == Chars(members[j].key) && parent.kids[j].Holds(members[j].value)
    ensures parent.Holds(Object(members[k := m]))
  {
    hide Node.Holds, Node.Family;
    StandsForObject(parent, members[k := m]);
  }

  /** The children's values after a replacement. */
  method ReplaceAt(parent: Node, item: Node, replacement: Node, ghost k: nat)
    requires parent.Family() && k < |parent.kids| && parent.kids[k] == item != replacement
    modifies parent`child, parent`kids, parent`repr
    modifies replacement`next, replacement`prev, parent.kids`next, parent.kids`prev
    ensures parent.kids == old(parent.kids)[k := replacement]
    ensures item.next == null && item.prev == null
    ensures Linked(parent.kids) <==> replacement !in old(parent.kids)
    ensures FirstForLast(old(parent.kids), k, replacement) ==> Linked([replacement]) && parent.child == replacement
    ensures replacement in old(parent.kids) && !FirstForLast(old(parent.kids), k, replacement) ==>
              forall ks :: ks != [] && ks[0] == parent.child ==> !Linked(ks)
    ensures old(Apart(parent, replacement)) ==>
              parent.Family() && ReplacesItem(parent, replacement, k) && ReplacesMember(parent, replacement, k)
  {
    hide Node.Holds, Node.Family, Linked;
    ArrayValues(parent);
    ObjectValues(parent);
    TreesAreElsewhere(parent, replacement);
    ghost var before := parent.kids;
    Replace(parent, item, replacement, k);
    if old(Apart(parent, replacement)) {
      forall n: Node, v | (n in before || n == replacement) && old(n.Holds(v))
        ensures n.Holds(v)
      {
        assert parent !in n.repr && replacement !in n.repr - {n} && forall m :: m in before && m != n ==> m !in n.repr;
        assert unchanged(n.repr - {n});
      }
      forall items, v | old(parent.Holds(Array(items))) && old(replacement.Holds(v))
        ensures k < |items| && parent.Holds(Array(items[k := v]))
      {
        ArrayReplaced(parent, k, items, v);
      }
      forall members: seq<Member>, m: Member |
        old(parent.Holds(Object(members))) && old(replacement.Holds(m.value)) && old(replacement.name) == Chars(m.key)
        ensures k < |members| && parent.Holds(Object(members[k := m]))
      {
        ObjectReplaced(parent, k, members, m);
      }
    }
  }

  /**
   * `cJSON_ReplaceItemViaPointer`: another node in the place of the child at k. A replacement that is one of the
   * other children leaves no list, except that the first of three or more in the place of the last becomes the only
   * child.
   */
  method ReplaceItemViaPointer(parent: Node?, item: Node?, replacement: Node?, ghost k: nat) returns (ok: bool)
    requires parent != null && item != null ==> parent.Family() && k < |parent.kids| && parent.kids[k] == item
    modifies if parent != null && item != null && replacement != null
             then {parent, replacement} + (set n | n in parent.kids) else {}
    ensures ok == (parent != null && item != null && replacement != null)
    ensures ok ==> parent.kids == old(parent.kids)[k := replacement]
    ensures ok ==> (Linked(parent.kids) <==> replacement == item || replacement !in old(parent.kids))
    ensures ok && FirstForLast(old(parent.kids), k, replacement) ==>
              Linked([replacement]) && parent.child == replacement
    ensures ok && !Linked(parent.kids) && !FirstForLast(old(parent.kids), k, replacement) ==>
              forall ks :: ks != [] && ks[0] == parent.child ==> !Linked(ks)
    ensures ok && replacement != item ==> item.next == null && item.prev == null
    ensures ok && (replacement == item || old(Apart(parent, replacement))) ==>
              parent.Family() && ReplacesItem(parent, replacement, k) && ReplacesMember(parent, replacement, k)
  {
    hide Node.Holds, Node.Family, Linked;
    if parent != null && item != null {
      HasFirstChild(parent);
    }
    if parent == null || parent.child == null || replacement == null || item == null {
      return false;
    }
    ok := true;
    if replacement != item {
      ReplaceAt(parent, item, replacement, k);
    } else {
      FirstIsNotLast(parent, k);
      ItselfReplaced(parent, k);
    }
  }

  lemma ItselfReplaced(parent: Node, k: nat)
    requires parent.Family() && k < |parent.kids|
    ensures forall items, v :: parent.Holds(Array(items)) && parent.kids[k].Holds(v) ==>
              k < |items| && parent.Holds(Array(items[k := v]))
    ensures forall members: seq<Member>, m: Member ::
              parent.Holds(Object(members)) && parent.kids[k].Holds(m.value) && parent.kids[k].name == Chars(m.key) ==>
                k < |members| && parent.Holds(Object(members[k := m]))
  {
    hide Node.Holds, Node.Family;
    ArrayValues(parent);
    ObjectValues(parent);
    forall items, v | parent.Holds(Array(items)) && parent.kids[k].Holds(v)
      ensures k < |items| && parent.Holds(Array(items[k := v]))
    {
      ArrayReplaced(parent, k, items, v);
    }
    forall members: seq<Member>, m: Member |
      parent.Holds(Object(members)) && parent.kids[k].Holds(m.value) && parent.kids[k].name == Chars(m.key)
      ensures k < |members| && parent.Holds(Object(members[k := m]))
    {
      ObjectReplaced(parent, k, members, m);
    }
  }
}
