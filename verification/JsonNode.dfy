/** The cJSON node and the trees built from it. */
module JsonNode {
  import opened JsonText
  import opened JsonValue

  datatype Kind = InvalidKind | FalseKind | TrueKind | NullKind | NumberKind | StringKind | ArrayKind | ObjectKind

  /** A `char *`: NULL or the text it points to. */
  datatype CharPointer = NoChars | Chars(chars: seq<byte>)

  class Node {
    var next: Node?
    var prev: Node?
    var child: Node?
    var kind: Kind
    var valuestring: CharPointer
    var valueint: int
    var valuedouble: real
    /** The key, if the node is in an object. */
    var name: CharPointer

    /** The children in order. */
    ghost var kids: seq<Node>
    /** The node and everything below it. */
    ghost var repr: set<Node>

    /** A new item has all its fields zero. */
    constructor ()
      ensures next == null && prev == null && child == null && kind == InvalidKind
      ensures valuestring == NoChars && valueint == 0 && valuedouble == 0.0 && name == NoChars
      ensures kids == [] && repr == {this}
    {
      next, prev, child := null, null, null;
      kind, valuestring, valueint, valuedouble, name := InvalidKind, NoChars, 0, 0.0, NoChars;
      kids, repr := [], {this};
    }

    /** The child list: `child` is its head, and nodes below different children are different. */
    ghost predicate Family()
      reads this`child, this`kids, this`repr, repr - {this}
    {
      this in repr
      && (forall k :: k in kids ==> k in repr && k != this)
      && (if kids == [] then child == null else child == kids[0])
      && Linked(kids)
      && (forall i :: 0 <= i < |kids| ==> kids[i] in kids[i].repr && kids[i].repr <= repr - {this})
      && (forall i, j :: 0 <= i < j < |kids| ==> kids[i].repr !! kids[j].repr)
    }

    ghost predicate Childless()
      reads this`child, this`kids
    {
      child == null && kids == []
    }

    /** The tree below this node stands for v. Its own place in a list, and its key, are its parent's business. */
    ghost predicate Holds(v: Json)
      reads this`child, this`kind, this`valuestring, this`valueint, this`valuedouble, this`kids, this`repr
      reads repr - {this}
      decreases v
    {
      this in repr
      && match v
         case Null => kind == NullKind && Childless()
         case False => kind == FalseKind && Childless()
         case True => kind == TrueKind && Childless()
         case Number(r) => kind == NumberKind && valuedouble == r && valueint == ValueInt(r) && Childless()
         case String(t) => kind == StringKind && valuestring == Chars(t) && Childless()
         case Array(items) =>
           kind == ArrayKind && Family() && |kids| == |items|
           && forall i :: 0 <= i < |items| ==> kids[i].Holds(items[i])
         case Object(members) =>
           kind == ObjectKind && Family() && |kids| == |members|
           && forall i :: 0 <= i < |members| ==>
                kids[i].name == Chars(members[i].key) && kids[i].Holds(members[i].value)
    }
  }

  /** Neighbours point at each other and the last `next` is NULL. */
  ghost predicate Chained(kids: seq<Node>)
    reads kids`next, kids`prev
  {
    (forall i, j :: 0 <= i < j < |kids| ==> kids[i] != kids[j])
    && (forall i {:trigger kids[i].next} :: 0 <= i < |kids| ==>
          kids[i].next == if i + 1 < |kids| then kids[i + 1] else null)
    && (forall i {:trigger kids[i].prev} :: 0 < i < |kids| ==> kids[i].prev == kids[i - 1])
  }

  /** A finished list also has the tail in the head's `prev`. */
  ghost predicate Linked(kids: seq<Node>)
    reads kids`next, kids`prev
  {
    Chained(kids) && (kids != [] ==> kids[0].prev == kids[|kids| - 1])
  }

  /** Separate trees with all their nodes in `below`. */
  ghost predicate Separate(kids: seq<Node>, below: set<Node>)
    reads kids`repr
  {
    (forall i :: 0 <= i < |kids| ==> kids[i] in kids[i].repr && kids[i].repr <= below)
    && (forall i, j :: 0 <= i < j < |kids| ==> kids[i].repr !! kids[j].repr)
  }

  ghost predicate HoldItems(kids: seq<Node>, items: seq<Json>, below: set<Node>)
    reads kids, below
  {
    Separate(kids, below) && |kids| == |items|
    && forall i :: 0 <= i < |items| ==> kids[i].Holds(items[i])
  }

  ghost predicate HoldMembers(kids: seq<Node>, members: seq<Member>, below: set<Node>)
    reads kids, below
  {
    Separate(kids, below) && |kids| == |members|
    && forall i :: 0 <= i < |members| ==>
         kids[i].name == Chars(members[i].key) && kids[i].Holds(members[i].value)
  }

  /** The children of an array node, in order and linked. */
  lemma ArrayKids(parent: Node, items: seq<Json>)
    requires parent.Holds(Array(items))
    ensures |parent.kids| == |items| && parent.child == if items == [] then null else parent.kids[0]
    ensures forall i :: 0 <= i < |items| ==>
              parent.kids[i].Holds(items[i])
              && (parent.kids[i].next == null <==> i + 1 == |items|)
              && parent.kids[i].next == if i + 1 < |items| then parent.kids[i + 1] else null
  {
  }

  /** The same for an object node. */
  lemma ObjectKids(parent: Node, members: seq<Member>)
    requires parent.Holds(Object(members))
    ensures |parent.kids| == |members| && parent.child == if members == [] then null else parent.kids[0]
    ensures parent.Family()
    ensures forall i :: 0 <= i < |members| ==>
              parent.kids[i].name == Chars(members[i].key) && parent.kids[i].Holds(members[i].value)
              && (parent.kids[i].next == null <==> i + 1 == |members|)
              && parent.kids[i].next == if i + 1 < |members| then parent.kids[i + 1] else null
  {
  }

  /** Puts an item behind the last one of a list under construction; no tree changes. */
  method Attach(current: Node, item: Node, ghost kids: seq<Node>, ghost below: set<Node>)
    requires kids != [] && current == kids[|kids| - 1] && Chained(kids) && Separate(kids, below)
    requires item !in below && item.next == null
    modifies current`next, item`prev
    ensures Chained(kids + [item])
    ensures forall items :: old(HoldItems(kids, items, below)) ==> HoldItems(kids, items, below)
    ensures forall members :: old(HoldMembers(kids, members, below)) ==> HoldMembers(kids, members, below)
  {
    hide Node.Holds, Node.Family, Linked;
    current.next := item;
    item.prev := current;
  }

  /** The same, or the first item of all. */
  method AttachBehind(last: Node?, item: Node, ghost kids: seq<Node>, ghost below: set<Node>)
    requires Chained(kids) && Separate(kids, below) && item !in below && item.next == null
    requires if kids == [] then last == null else last == kids[|kids| - 1]
    modifies (if last == null then {} else {last})`next, item`prev
    ensures Chained(kids + [item]) && Separate(kids, below)
    ensures forall items :: old(HoldItems(kids, items, below)) ==> HoldItems(kids, items, below)
    ensures forall members :: old(HoldMembers(kids, members, below)) ==> HoldMembers(kids, members, below)
  {
    hide Chained, HoldItems, HoldMembers;
    if last != null {
      Attach(last, item, kids, below);
    } else {
      OneNode(item);
    }
  }

  /** A new item at the end of a list under construction. */
  method AttachNew(current: Node?, ghost kids: seq<Node>, ghost below: set<Node>) returns (item: Node)
    requires Chained(kids) && Separate(kids, below)
    requires if kids == [] then current == null else current == kids[|kids| - 1]
    modifies current
    ensures fresh(item) && item.repr == {item} && item.Childless() && Chained(kids + [item])
    ensures forall items :: old(HoldItems(kids, items, below)) ==> HoldItems(kids, items, below)
    ensures forall members :: old(HoldMembers(kids, members, below)) ==> HoldMembers(kids, members, below)
    ensures Separate(kids, below)
  {
    hide Chained, HoldItems, HoldMembers;
    KidsAreBelow(kids, below);
    item := new Node();
    AttachBehind(current, item, kids, below);
  }

  /** Finishes a list: the head's `prev` becomes the tail; no tree changes. */
  method Close(head: Node, current: Node, ghost kids: seq<Node>, ghost below: set<Node>)
    requires kids != [] && head == kids[0] && current == kids[|kids| - 1] && Chained(kids) && Separate(kids, below)
    modifies head`prev
    ensures Linked(kids)
    ensures forall items :: old(HoldItems(kids, items, below)) ==> HoldItems(kids, items, below)
    ensures forall members :: old(HoldMembers(kids, members, below)) ==> HoldMembers(kids, members, below)
  {
    hide Node.Holds, Node.Family;
    head.prev := current;
  }

  lemma NoNodes()
    ensures Linked([]) && Chained([]) && Separate([], {}) && HoldItems([], [], {}) && HoldMembers([], [], {})
  {
  }

  lemma OneNode(item: Node)
    requires item.next == null
    ensures Chained([] + [item])
  {
  }

  lemma KidsAreBelow(kids: seq<Node>, below: set<Node>)
    requires Separate(kids, below)
    ensures forall k :: k in kids ==> k in below
  {
  }

  lemma OneMoreItem(kids: seq<Node>, items: seq<Json>, below: set<Node>, item: Node, v: Json)
    requires HoldItems(kids, items, below) && item.Holds(v) && item.repr !! below
    ensures HoldItems(kids + [item], items + [v], below + item.repr) && Separate(kids + [item], below + item.repr)
  {
  }

  lemma OneMoreMember(kids: seq<Node>, members: seq<Member>, below: set<Node>, item: Node, m: Member)
    requires HoldMembers(kids, members, below) && item.Holds(m.value) && item.repr !! below && item.name == Chars(m.key)
    ensures HoldMembers(kids + [item], members + [m], below + item.repr) && Separate(kids + [item], below + item.repr)
  {
  }

  /** With these nodes as its children, the node would stand for v. */
  ghost predicate WouldHold(node: Node, v: Json, kids: seq<Node>, below: set<Node>)
    reads node`kind, node`valuestring, node`valueint, node`valuedouble, kids, below
  {
    match v
    case Null => node.kind == NullKind && kids == []
    case False => node.kind == FalseKind && kids == []
    case True => node.kind == TrueKind && kids == []
    case Number(r) =>
      node.kind == NumberKind && node.valuedouble == r && node.valueint == ValueInt(r) && kids == []
    case String(t) => node.kind == StringKind && node.valuestring == Chars(t) && kids == []
    case Array(items) => node.kind == ArrayKind && HoldItems(kids, items, below)
    case Object(members) => node.kind == ObjectKind && HoldMembers(kids, members, below)
  }

  lemma ItemsWouldHold(node: Node, items: seq<Json>, kids: seq<Node>, below: set<Node>)
    requires node.kind == ArrayKind && HoldItems(kids, items, below)
    ensures WouldHold(node, Array(items), kids, below)
  {
  }

  lemma MembersWouldHold(node: Node, members: seq<Member>, kids: seq<Node>, below: set<Node>)
    requires node.kind == ObjectKind && HoldMembers(kids, members, below)
    ensures WouldHold(node, Object(members), kids, below)
  {
  }

  /** The node takes a finished list as its children. */
  method Adopt(node: Node, head: Node?, ghost v: Json, ghost kids: seq<Node>, ghost below: set<Node>)
    requires Linked(kids) && Separate(kids, below) && node !in below && WouldHold(node, v, kids, below)
    requires head == if kids == [] then null else kids[0]
    modifies node`child, node`kids, node`repr
    ensures node.Holds(v) && node.repr == {node} + below
  {
    hide Node.Holds, HoldItems, HoldMembers, WouldHold, Linked, Separate;
    KidsAreBelow(kids, below);
    node.child := head;
    node.kids := kids;
    node.repr := {node} + below;
    InFamily(node, below);
    HoldsNow(node, v, below);
  }

  lemma InFamily(node: Node, below: set<Node>)
    requires Linked(node.kids) && Separate(node.kids, below) && node !in below && node.repr == {node} + below
    requires node.child == if node.kids == [] then null else node.kids[0]
    ensures node.Family()
  {
    hide Linked;
    KidsAreBelow(node.kids, below);
  }

  lemma HoldsNow(node: Node, v: Json, below: set<Node>)
    requires node.Family() && node.repr == {node} + below && WouldHold(node, v, node.kids, below)
    ensures node.Holds(v)
  {
    hide Linked, Separate;
  }

  /** The node becomes an array, or an object, with these children. */
  method AdoptItems(node: Node, head: Node?, ghost items: seq<Json>, ghost kids: seq<Node>, ghost below: set<Node>)
    requires Linked(kids) && HoldItems(kids, items, below) && node !in below
    requires head == if kids == [] then null else kids[0]
    modifies node`kind, node`child, node`kids, node`repr
    ensures node.Holds(Array(items)) && node.repr == {node} + below
  {
    hide Linked, Node.Holds;
    KidsAreBelow(kids, below);
    node.kind := ArrayKind;
    ItemsWouldHold(node, items, kids, below);
    Adopt(node, head, Array(items), kids, below);
  }

  method AdoptMembers(
      node: Node, head: Node?, ghost members: seq<Member>, ghost kids: seq<Node>, ghost below: set<Node>)
    requires Linked(kids) && HoldMembers(kids, members, below) && node !in below
    requires head == if kids == [] then null else kids[0]
    modifies node`kind, node`child, node`kids, node`repr
    ensures node.Holds(Object(members)) && node.repr == {node} + below
  {
    hide Linked, Node.Holds;
    KidsAreBelow(kids, below);
    node.kind := ObjectKind;
    MembersWouldHold(node, members, kids, below);
    Adopt(node, head, Object(members), kids, below);
  }
}
