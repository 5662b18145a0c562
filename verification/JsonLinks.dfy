/** The links of a child list: what the list operations do to them, whatever node they are given. */
module JsonLinks {
  import opened JsonNode

  function Without<T>(s: seq<T>, k: nat): seq<T>
    requires k < |s|
  {
    s[..k] + s[k + 1..]
  }

  function Inserted<T>(s: seq<T>, k: nat, x: T): seq<T>
    requires k <= |s|
  {
    s[..k] + [x] + s[k..]
  }

  lemma WithoutAt<T>(s: seq<T>, k: nat, i: nat)
    requires k < |s| && i + 1 < |s|
    ensures |Without(s, k)| == |s| - 1 && Without(s, k)[i] == if i < k then s[i] else s[i + 1]
  {
  }

  lemma InsertedAt<T>(s: seq<T>, k: nat, x: T, i: nat)
    requires k <= |s| && i <= |s|
    ensures |Inserted(s, k, x)| == |s| + 1
    ensures Inserted(s, k, x)[i] == if i < k then s[i] else if i == k then x else s[i - 1]
  {
  }

  function NextIn(kids: seq<Node>, i: nat): Node?
    requires i < |kids|
  {
    if i + 1 < |kids| then kids[i + 1] else null
  }

  function PrevIn(kids: seq<Node>, i: nat): Node
    requires i < |kids|
  {
    kids[if i > 0 then i - 1 else |kids| - 1]
  }

  /** The links of a list, spelled out. */
  lemma LinksOf(kids: seq<Node>)
    requires Linked(kids) && kids != []
    ensures forall i, j :: 0 <= i < j < |kids| ==> kids[i] != kids[j]
    ensures forall i {:trigger kids[i].next} :: 0 <= i < |kids| ==> kids[i].next == NextIn(kids, i)
    ensures forall i {:trigger kids[i].prev} :: 0 <= i < |kids| ==> kids[i].prev == PrevIn(kids, i)
  {
  }

  lemma LinksAt(kids: seq<Node>, k: nat)
    requires Linked(kids) && k < |kids|
    ensures forall i, j :: 0 <= i < j < |kids| ==> kids[i] != kids[j]
    ensures kids[k].next == if k + 1 < |kids| then kids[k + 1] else null
    ensures kids[k].prev == kids[if k > 0 then k - 1 else |kids| - 1]
    ensures k > 0 ==> kids[k - 1].next == kids[k]
  {
  }

  // ---- no list

  /** Following `next` from the head of a list stays in the list. */
  lemma {:induction false} Follow(ks: seq<Node>, path: seq<Node>)
    requires Chained(ks) && ks != [] && path != [] && ks[0] == path[0]
    requires forall t {:trigger path[t].next} :: 0 <= t < |path| - 1 ==> path[t].next == path[t + 1]
    ensures path <= ks
    decreases |path|
  {
    hide Chained;
    if |path| > 1 {
      var before, t := path[..|path| - 1], |path| - 2;
      Follow(ks, before);
      assert path[t].next == path[t + 1];
      ChainStep(ks, t);
    }
  }

  lemma ChainStep(ks: seq<Node>, t: nat)
    requires Chained(ks) && t < |ks|
    ensures ks[t].next == if t + 1 < |ks| then ks[t + 1] else null
  {
  }

  /** There is no list from a head whose `next` pointers come to a node twice. */
  lemma ComesTwice(head: Node, path: seq<Node>, a: nat, b: nat)
    requires path != [] && head == path[0] && a < b < |path| && path[a] == path[b]
    requires forall t {:trigger path[t].next} :: 0 <= t < |path| - 1 ==> path[t].next == path[t + 1]
    ensures forall ks :: ks != [] && ks[0] == head ==> !Linked(ks)
  {
    forall ks | ks != [] && ks[0] == head
      ensures !Linked(ks)
    {
      if Linked(ks) {
        Follow(ks, path);
        LinksOf(ks);
      }
    }
  }

  /** Nor if they lead from one node to another that does not point back. */
  lemma PointsElsewhere(head: Node, path: seq<Node>)
    requires |path| > 1 && head == path[0] && path[|path| - 1].prev != path[|path| - 2]
    requires forall t {:trigger path[t].next} :: 0 <= t < |path| - 1 ==> path[t].next == path[t + 1]
    ensures forall ks :: ks != [] && ks[0] == head ==> !Linked(ks)
  {
    forall ks | ks != [] && ks[0] == head
      ensures !Linked(ks)
    {
      if Linked(ks) {
        Follow(ks, path);
        LinksOf(ks);
      }
    }
  }

  /** Nor if the head's `prev`, which is taken for the tail, has a successor. */
  lemma TailGoesOn(head: Node)
    requires head.prev == null || head.prev.next != null
    ensures forall ks :: ks != [] && ks[0] == head ==> !Linked(ks)
  {
    forall ks | ks != [] && ks[0] == head
      ensures !Linked(ks)
    {
      if Linked(ks) {
        LinksOf(ks);
      }
    }
  }

  // ---- append

  /**
   * The links of an append: the tail is found through the head's `prev`. A non-empty list takes the item's `next` as
   * it is, and an item that is in the list already comes behind itself or before others.
   */
  method LinkLast(parent: Node, item: Node, ghost kids: seq<Node>)
    requires Linked(kids) && parent.child == if kids == [] then null else kids[0]
    modifies parent`child, item`next, item`prev, kids`next, kids`prev
    ensures parent.child == (kids + [item])[0]
    ensures Linked(kids + [item]) <==> kids == [] || (item !in kids && old(item.next) == null)
    ensures !Linked(kids + [item]) ==> forall ks :: ks != [] && ks[0] == parent.child ==> !Linked(ks)
    ensures kids != [] && item == kids[|kids| - 1] ==> item.next == item
  {
    hide Linked;
    if kids != [] {
      LinksOf(kids);
    }
    var child := parent.child;
    if child == null {
      parent.child := item;
      item.prev := item;
      item.next := null;
    } else if child.prev != null {
      child.prev.next := item;
      item.prev := child.prev;
      parent.child.prev := item;
    }
    if kids == [] || (item !in kids && item.next == null) {
      LinkedBehind(kids, item);
    } else {
      TailGoesOn(parent.child);
      assert (kids + [item])[0] == parent.child;
    }
  }

  lemma LinkedBehind(kids: seq<Node>, item: Node)
    requires item !in kids && forall i, j :: 0 <= i < j < |kids| ==> kids[i] != kids[j]
    requires item.next == null && item.prev == if kids == [] then item else kids[|kids| - 1]
    requires forall i {:trigger kids[i].next} :: 0 <= i < |kids| ==>
               kids[i].next == if i + 1 < |kids| then kids[i + 1] else item
    requires forall i {:trigger kids[i].prev} :: 0 <= i < |kids| ==> kids[i].prev == if i > 0 then kids[i - 1] else item
    ensures Linked(kids + [item])
  {
  }

  // ---- removal

  /** The links of a removal; the head's `prev` keeps pointing at the tail. */
  method Unlink(parent: Node, item: Node, ghost kids: seq<Node>, ghost k: nat)
    requires Linked(kids) && parent !in kids && k < |kids| && kids[k] == item && parent.child == kids[0]
    modifies parent`child, kids`next, kids`prev
    ensures Linked(Without(kids, k)) && item.next == null && item.prev == null
    ensures parent.child == if |kids| == 1 then null else Without(kids, k)[0]
  {
    hide Without, Linked;
    LinksOf(kids);
    if |kids| > 1 {
      WithoutAt(kids, k, 0);
    }
    if item != parent.child {
      item.prev.next := item.next;
    }
    if item.next != null {
      item.next.prev := item.prev;
    }
    if item == parent.child {
      parent.child := item.next;
    } else if item.next == null {
      parent.child.prev := item.prev;
    }
    item.prev := null;
    item.next := null;
    LinkedWithout(kids, k);
  }

  lemma LinkedWithout(kids: seq<Node>, k: nat)
    requires k < |kids| && forall i, j :: 0 <= i < j < |kids| ==> kids[i] != kids[j]
    requires forall i {:trigger kids[i].next} :: 0 <= i < |kids| && i != k ==>
               kids[i].next == if i + 1 == k then (if k + 1 < |kids| then kids[k + 1] else null)
                               else if i + 1 < |kids| then kids[i + 1] else null
    requires forall i {:trigger kids[i].prev} :: 0 <= i < |kids| && i != k ==>
               kids[i].prev == if i == 0 then (if k + 1 == |kids| then kids[k - 1] else kids[|kids| - 1])
                               else if i == k + 1 then kids[if k > 0 then k - 1 else |kids| - 1]
                               else kids[i - 1]
    ensures Linked(Without(kids, k))
  {
  }

  // ---- insertion

  /** The links of an insertion in front of the child at k; an item that is in the list already leaves no list. */
  method LinkBefore(parent: Node, after: Node, item: Node, ghost kids: seq<Node>, ghost k: nat)
    requires Linked(kids) && k < |kids| && kids[k] == after && parent.child == kids[0]
    modifies parent`child, item`next, item`prev, kids`next, kids`prev
    ensures parent.child == Inserted(kids, k, item)[0]
    ensures Linked(Inserted(kids, k, item)) <==> item !in kids
    ensures item in kids ==> forall ks :: ks != [] && ks[0] == parent.child ==> !Linked(ks)
  {
    hide Inserted, Linked, NextIn, PrevIn;
    LinksOf(kids);
    LinksAt(kids, k);
    InsertedAt(kids, k, item, 0);
    item.next := after;
    item.prev := after.prev;
    after.prev := item;
    if after == parent.child {
      parent.child := item;
    } else {
      item.prev.next := item;
    }
    if item !in kids {
      LinkedInserted(kids, k, item);
    } else {
      ghost var m: nat :| m < |kids| && kids[m] == item;
      InsertedTwice(kids, k, m, parent.child);
    }
  }

  lemma LinkedInserted(kids: seq<Node>, k: nat, item: Node)
    requires k < |kids| && item !in kids && forall i, j :: 0 <= i < j < |kids| ==> kids[i] != kids[j]
    requires item.next == kids[k] && item.prev == PrevIn(kids, k)
    requires forall i {:trigger kids[i].next} :: 0 <= i < |kids| ==>
               kids[i].next == if i + 1 == k then item else NextIn(kids, i)
    requires forall i {:trigger kids[i].prev} :: 0 <= i < |kids| ==>
               kids[i].prev == if i == k then item else PrevIn(kids, i)
    ensures Linked(Inserted(kids, k, item))
  {
  }

  /** The item inserted in front of the child at k is the child at m. */
  lemma InsertedTwice(kids: seq<Node>, k: nat, m: nat, head: Node)
    requires k < |kids| && m < |kids| && forall i, j :: 0 <= i < j < |kids| ==> kids[i] != kids[j]
    requires head == if k == 0 then kids[m] else kids[0]
    requires forall i {:trigger kids[i].next} :: 0 <= i < |kids| && i != m && i + 1 != k ==>
               kids[i].next == NextIn(kids, i)
    requires k > 0 && m != k - 1 ==> kids[k - 1].next == kids[m]
    requires kids[m].next == if k > 0 && m == k - 1 then kids[m] else kids[k]
    requires m < k ==> kids[m].prev == kids[k - 1]
    ensures forall ks :: ks != [] && ks[0] == head ==> !Linked(ks)
  {
    if m >= k {
      ComesTwice(head, kids[..k] + [kids[m]] + kids[k..m + 1], k, m + 1);
    } else if m > 0 {
      PointsElsewhere(head, kids[..m + 1]);
    } else {
      TailGoesOn(head);
    }
  }

  // ---- replacement

  /** The first of three or more takes the place of the last. */
  predicate FirstForLast(kids: seq<Node>, k: nat, r: Node) {
    |kids| > 2 && k == |kids| - 1 && r == kids[0]
  }

  /**
   * The links of a replacement. A replacement that is in the list already leaves no list, except that the first of
   * three or more in the place of the last is left alone in the list.
   */
  method Relink(parent: Node, item: Node, replacement: Node, ghost kids: seq<Node>, ghost k: nat)
    requires Linked(kids) && k < |kids| && kids[k] == item != replacement && parent.child == kids[0]
    modifies parent`child, replacement`next, replacement`prev, kids`next, kids`prev
    ensures item.next == null && item.prev == null && parent.child == kids[k := replacement][0]
    ensures Linked(kids[k := replacement]) <==> replacement !in kids
    ensures FirstForLast(kids, k, replacement) ==> Linked([replacement]) && parent.child == replacement
    ensures replacement in kids && !FirstForLast(kids, k, replacement) ==>
              forall ks :: ks != [] && ks[0] == parent.child ==> !Linked(ks)
  {
    hide Linked, NextIn, PrevIn;
    LinksOf(kids);
    ghost var m := k;
    if replacement in kids {
      m :| 0 <= m < |kids| && kids[m] == replacement;
    }
    RelinkPointers(parent, item, replacement, kids, k, m);
    if replacement !in kids {
      LinkedReplaced(kids, k, replacement);
    } else {
      ReplacedBySibling(kids, k, m, parent.child);
      TwiceInList(kids[k := replacement], k, m);
    }
  }

  lemma TwiceInList(ks: seq<Node>, a: nat, b: nat)
    requires a < |ks| && b < |ks| && a != b && ks[a] == ks[b]
    ensures !Linked(ks)
  {
  }

  /** The pointers afterwards, for a node that was not in the list. */
  ghost predicate OutsiderLinks(kids: seq<Node>, k: nat, r: Node)
    requires k < |kids|
    reads r`next, r`prev, kids`next, kids`prev
  {
    r.next == NextIn(kids, k) && r.prev == (if |kids| == 1 then r else PrevIn(kids, k))
    && (forall i {:trigger kids[i].next} :: 0 <= i < |kids| && i != k ==>
          kids[i].next == if i + 1 == k then r else NextIn(kids, i))
    && (forall i {:trigger kids[i].prev} :: 0 <= i < |kids| && i != k ==>
          kids[i].prev == if i == k + 1 || (i == 0 && k == |kids| - 1) then r else PrevIn(kids, i))
  }

  /** The pointers afterwards that matter, for the child at m. */
  ghost predicate SiblingLinks(kids: seq<Node>, k: nat, m: nat)
    requires k < |kids| && m < |kids|
    reads kids`next, kids`prev
  {
    (forall i {:trigger kids[i].next} :: 0 <= i < |kids| && i != m && i != k && i + 1 != k ==>
       kids[i].next == NextIn(kids, i))
    && (k > 0 && m != k - 1 ==> kids[k - 1].next == if m == k + 1 then kids[k] else kids[m])
    && kids[m].next == (if m == k + 1 || m + 1 == k then kids[m] else NextIn(kids, k))
    && (m + 1 < k ==> kids[m].prev == if m == 0 && k == |kids| - 1 then kids[m] else kids[k - 1])
  }

  method RelinkPointers(parent: Node, item: Node, replacement: Node, ghost kids: seq<Node>, ghost k: nat, ghost m: nat)
    requires Linked(kids) && k < |kids| && kids[k] == item != replacement && parent.child == kids[0]
    requires if m == k then replacement !in kids else m < |kids| && kids[m] == replacement
    modifies parent`child, replacement`next, replacement`prev, kids`next, kids`prev
    ensures item.next == null && item.prev == null && parent.child == if k == 0 then replacement else kids[0]
    ensures forall i {:trigger kids[i].next} :: 0 <= i < |kids| && i != m && i != k && i + 1 != k ==>
              kids[i].next == old(kids[i].next)
    ensures k > 0 && m + 1 != k ==> kids[k - 1].next == if m == k + 1 then kids[k] else replacement
    ensures replacement.next == if m == k + 1 || m + 1 == k then replacement else old(item.next)
    ensures m == k ==> replacement.prev == if |kids| == 1 then replacement else old(item.prev)
    ensures m + 1 < k ==> replacement.prev == if m == 0 && k == |kids| - 1 then replacement else kids[k - 1]
    ensures m == k && k > 0 && k == |kids| - 1 ==> kids[0].prev == replacement
    ensures m == k < |kids| - 1 ==> kids[k + 1].prev == replacement
    ensures m == k ==> forall i {:trigger kids[i].prev} :: 0 <= i < |kids| && i != k && i != k + 1 ==>
              (i == 0 && k == |kids| - 1) || kids[i].prev == old(kids[i].prev)
  {
    hide Linked;
    LinksAt(kids, k);
    replacement.next := item.next;
    replacement.prev := item.prev;
    if replacement.next != null {
      replacement.next.prev := replacement;
    }
    if parent.child == item {
      if parent.child.prev == parent.child {
        replacement.prev := replacement;
      }
      parent.child := replacement;
    } else {
      if replacement.prev != null {
        replacement.prev.next := replacement;
      }
      if replacement.next == null {
        parent.child.prev := replacement;
      }
    }
    item.next := null;
    item.prev := null;
  }

  lemma LinkedReplaced(kids: seq<Node>, k: nat, r: Node)
    requires k < |kids| && r !in kids && forall i, j :: 0 <= i < j < |kids| ==> kids[i] != kids[j]
    requires OutsiderLinks(kids, k, r)
    ensures Linked(kids[k := r])
  {
  }

  /** The child at k is replaced by its sibling at m. */
  lemma ReplacedBySibling(kids: seq<Node>, k: nat, m: nat, head: Node)
    requires k < |kids| && m < |kids| && k != m && forall i, j :: 0 <= i < j < |kids| ==> kids[i] != kids[j]
    requires head == if k == 0 then kids[m] else kids[0]
    requires kids[k].next == null && kids[k].prev == null && SiblingLinks(kids, k, m)
    ensures if FirstForLast(kids, k, kids[m]) then Linked([kids[m]]) && head == kids[m]
            else forall ks :: ks != [] && ks[0] == head ==> !Linked(ks)
  {
    var r := kids[m];
    if m > k + 1 {
      ComesTwice(head, kids[..k] + [r] + kids[k + 1..m + 1], k, m);
    } else if m == k + 1 && k == 0 {
      ComesTwice(head, [r, r], 0, 1);
    } else if m == k + 1 {
      PointsElsewhere(head, kids[..k + 1]);
    } else if m + 1 == k {
      ComesTwice(head, kids[..k] + [r], k - 1, k);
    } else if m > 0 {
      PointsElsewhere(head, kids[..m + 1]);
    } else if k < |kids| - 1 {
      TailGoesOn(head);
    }
  }
}
