/** A worker's forwarding decision, and whole runs of it with the workers' steps taken one after the other. */
module Switch {
  import opened MacTable
  import opened Dispatch

  // ---- endpoints

  /** Ports are numbered from 1. */
  type PortNumber = p: int | p > 0 witness 1

  datatype Endpoint = Endpoint(port: PortNumber, fdData: int)

  /** The linked list of endpoints. */
  datatype EndpointList = NoMore | More(first: Endpoint, next: EndpointList)

  function Listed(list: EndpointList): seq<Endpoint> {
    match list
    case NoMore => []
    case More(first, next) => [first] + Listed(next)
  }

  function Others(s: seq<Endpoint>, port: int): (r: seq<Endpoint>)
    ensures forall e :: e in r <==> e in s && e.port != port
  {
    if s == [] then []
    else (if s[0].port != port then [s[0]] else []) + Others(s[1..], port)
  }

  function FirstAt(s: seq<Endpoint>, port: int): (r: seq<Endpoint>)
    ensures |r| <= 1 && (r == [] <==> forall e :: e in s ==> e.port != port)
    ensures forall e :: e in r ==> e in s && e.port == port
  {
    if s == [] then [] else if s[0].port == port then [s[0]] else FirstAt(s[1..], port)
  }

  lemma OthersStep(list: EndpointList, port: int)
    requires list.More?
    ensures Others(Listed(list), port)
         == if list.first.port != port then [list.first] + Others(Listed(list.next), port)
            else Others(Listed(list.next), port)
  {
    assert Listed(list)[1..] == Listed(list.next);
  }

  lemma NobodyElse(port: int)
    ensures Others(Listed(NoMore), port) == []
  {
  }

  /** `flood_packet`: the endpoints the packet is sent to. */
  method FloodPacket(endpoints: EndpointList, originPort: int) returns (sent: seq<Endpoint>)
    ensures sent == Others(Listed(endpoints), originPort)
  {
    hide Others, Listed;
    sent := [];
    var ep := endpoints;
    NobodyElse(originPort);
    while ep.More?
      invariant Others(Listed(endpoints), originPort) == sent + Others(Listed(ep), originPort)
      decreases ep
    {
      OthersStep(ep, originPort);
      assert sent + ([ep.first] + Others(Listed(ep.next), originPort))
          == sent + [ep.first] + Others(Listed(ep.next), originPort);
      if ep.first.port != originPort {
        sent := sent + [ep.first];
      }
      ep := ep.next;
    }
  }

  /** `send_packet` */
  method SendPacket(endpoints: EndpointList, port: int) returns (sent: seq<Endpoint>)
    ensures sent == FirstAt(Listed(endpoints), port)
  {
    var ep := endpoints;
    while ep.More?
      invariant FirstAt(Listed(endpoints), port) == FirstAt(Listed(ep), port)
      decreases ep
    {
      assert Listed(ep)[1..] == Listed(ep.next);
      if ep.first.port == port {
        return [ep.first];
      }
      ep := ep.next;
    }
    sent := [];
  }

  // ---- the decision

  /**
   * A packet under a descriptor, with the switch's descriptors and endpoints at that time, and the clock as
   * read by the two lookups and the insertion.
   */
  datatype Event = Event(
    packet: Packet, fd: int, fdTable: map<int, Endpoint>, endpoints: EndpointList,
    destTime: int, srcTime: int, insertTime: int)

  const VLAN: bv16 := 1

  function Dest(p: Packet): Key {
    Key(p.bytes[..6], VLAN)
  }

  function Src(p: Packet): Key {
    Key(p.bytes[6..12], VLAN)
  }

  predicate IsIpv6(p: Packet) {
    p.bytes[12] == 0x86 && p.bytes[13] == 0xdd
  }

  predicate IsBroadcast(mac: Mac) {
    mac[0] & 1 == 1
  }

  /** Packets that are switched by their addresses. */
  predicate Unicast(e: Event) {
    e.fd in e.fdTable && !IsIpv6(e.packet) && !IsBroadcast(Dest(e.packet).mac)
  }

  /** The port the packet is handled as arriving on. */
  function Ingress(e: Event): PortNumber
    requires e.fd in e.fdTable
  {
    e.fdTable[e.fd].port
  }

  /** The sender is learned: it is not findable, and the destination is not known to be on the same port. */
  predicate Learns(t: Table, e: Event) {
    Unicast(e) && Find(t, Dest(e.packet), e.destTime) != Ingress(e)
    && Find(Expire(t, Dest(e.packet), e.destTime), Src(e.packet), e.srcTime) == -1
  }

  /** The table after the event. */
  function Switched(t: Table, e: Event): Table {
    if !Unicast(e) then t
    else
      var t1 := Expire(t, Dest(e.packet), e.destTime);
      if Find(t, Dest(e.packet), e.destTime) == Ingress(e) then t1
      else
        var t2 := Expire(t1, Src(e.packet), e.srcTime);
        if Learns(t, e) then Learn(t2, Src(e.packet), Ingress(e), e.insertTime) else t2
  }

  /** The endpoints the packet is sent to. */
  function Recipients(t: Table, e: Event): seq<Endpoint> {
    if e.fd !in e.fdTable || IsIpv6(e.packet) then []
    else if IsBroadcast(Dest(e.packet).mac) then Others(Listed(e.endpoints), Ingress(e))
    else
      var outPort := Find(t, Dest(e.packet), e.destTime);
      if outPort == Ingress(e) then []
      else if outPort == -1 then Others(Listed(e.endpoints), Ingress(e))
      else FirstAt(Listed(e.endpoints), outPort)
  }

  /** What `worker_thread` does with one packet. */
  method ProcessPacket(table: HashTable, e: Event) returns (sent: seq<Endpoint>)
    requires table.Valid()
    modifies table, table.buckets, table.Repr()
    ensures table.Valid() && fresh(table.Repr() - old(table.Repr()))
    ensures table.Contents() == Switched(old(table.Contents()), e)
    ensures sent == Recipients(old(table.Contents()), e)
  {
    hide Find, Expire, Learn, Others, FirstAt, HashTable.Contents, HashTable.Valid;
    if e.fd !in e.fdTable {
      return [];
    }
    var ep := e.fdTable[e.fd];
    if e.packet.bytes[12] == 0x86 && e.packet.bytes[13] == 0xdd {
      return [];
    }
    if e.packet.bytes[0] & 1 == 1 {
      sent := FloodPacket(e.endpoints, ep.port);
      return;
    }
    var outPort := table.Lookup(e.packet.bytes[..6], VLAN, e.destTime);
    if ep.port == outPort {
      return [];
    }
    var inPort := table.Lookup(e.packet.bytes[6..12], VLAN, e.srcTime);
    if inPort == -1 {
      var ok := table.Insert(e.packet.bytes[6..12], VLAN, ep.port, e.insertTime);
    }
    if outPort == -1 {
      sent := FloodPacket(e.endpoints, ep.port);
    } else {
      sent := SendPacket(e.endpoints, outPort);
    }
  }

  // ---- one packet

  predicate DistinctPorts(s: seq<Endpoint>) {
    forall i, j :: 0 <= i < j < |s| ==> s[i].port != s[j].port
  }

  /** Nothing goes back where it came from. */
  lemma NeverToIngress(t: Table, e: Event)
    ensures e.fd !in e.fdTable ==> Recipients(t, e) == []
    ensures e.fd in e.fdTable ==> forall r :: r in Recipients(t, e) ==> r.port != Ingress(e) && r in Listed(e.endpoints)
  {
  }

  lemma {:induction false} OthersAreDistinct(s: seq<Endpoint>, port: int)
    requires DistinctPorts(s)
    ensures DistinctPorts(Others(s, port))
    decreases |s|
  {
    if s != [] {
      OthersAreDistinct(s[1..], port);
      var rest := Others(s[1..], port);
      assert forall r :: r in rest ==> r in s[1..] && r.port != s[0].port;
      if s[0].port != port {
        assert Others(s, port) == [s[0]] + rest;
      } else {
        assert Others(s, port) == rest;
      }
    }
  }

  /** A flooded packet reaches every other endpoint exactly once, if no two endpoints share a port. */
  lemma FloodReachesOthersOnce(t: Table, e: Event)
    requires e.fd in e.fdTable && !IsIpv6(e.packet) && DistinctPorts(Listed(e.endpoints))
    requires IsBroadcast(Dest(e.packet).mac) || Find(t, Dest(e.packet), e.destTime) == -1
    ensures DistinctPorts(Recipients(t, e))
    ensures forall r :: r in Recipients(t, e) <==> r in Listed(e.endpoints) && r.port != Ingress(e)
  {
    OthersAreDistinct(Listed(e.endpoints), Ingress(e));
  }

  /** A packet to a findable address goes to at most one endpoint: one with the port learned for the address. */
  lemma KnownDestination(t: Table, e: Event)
    requires Unicast(e) && Find(t, Dest(e.packet), e.destTime) != -1
    ensures var port := t[Dest(e.packet)].port;
            |Recipients(t, e)| <= 1 && (forall r :: r in Recipients(t, e) ==> r.port == port)
            && (Recipients(t, e) != [] <==>
                port != Ingress(e) && exists r :: r in Listed(e.endpoints) && r.port == port)
  {
  }

  /**
   * A sender the table has never seen is learned: for 300 seconds packets to it go to the port it was seen on,
   * and only there. The exception is a packet to an address known to be on the sender's own port, which is dropped
   * before its sender is looked at.
   */
  lemma NewSenderIsFound(t: Table, e: Event, now: int)
    requires Unicast(e) && Src(e.packet) !in t && now - e.insertTime <= ENTRY_TTL
    ensures Find(Switched(t, e), Src(e.packet), now)
         == if Find(t, Dest(e.packet), e.destTime) == Ingress(e) then -1 else Ingress(e)
  {
  }

  // ---- whole runs

  function After(events: seq<Event>): Table {
    if events == [] then map[] else Switched(After(events[..|events| - 1]), events[|events| - 1])
  }

  /** Event i taught the switch the address, which it had not known at all before. */
  ghost predicate FirstTaught(events: seq<Event>, i: nat, key: Key) {
    i < |events| && Learns(After(events[..i]), events[i]) && Src(events[i].packet) == key && key !in After(events[..i])
  }

  /** Event i was a unicast packet from the address, handled as arriving on the port. */
  ghost predicate Taught(events: seq<Event>, i: nat, key: Key, port: int) {
    i < |events| && Unicast(events[i]) && Src(events[i].packet) == key && Ingress(events[i]) == port
  }

  lemma FirstTaughtStays(events: seq<Event>, e: Event, i: nat, key: Key)
    requires i < |events|
    ensures FirstTaught(events + [e], i, key) <==> FirstTaught(events, i, key)
  {
    assert (events + [e])[..i] == events[..i];
  }

  /** Every entry comes from an earlier unicast packet from that address, handled as arriving on that port. */
  lemma {:induction false} EveryEntryWasTaught(events: seq<Event>, key: Key) returns (i: nat)
    requires key in After(events)
    ensures Taught(events, i, key, After(events)[key].port)
    decreases |events|
  {
    hide Unicast, Ingress, Find;
    var before, e := events[..|events| - 1], events[|events| - 1];
    if Learns(After(before), e) && Src(e.packet) == key {
      i := |events| - 1;
    } else {
      i := EveryEntryWasTaught(before, key);
    }
  }

  /**
   * An entry that has not expired is still the one made by the first packet ever to teach the address: the
   * worker only inserts addresses it does not find, and what has expired stays so.
   */
  lemma {:induction false} FirstTeacherStays(events: seq<Event>, key: Key) returns (i: nat)
    requires key in After(events)
    ensures FirstTaught(events, i, key)
    ensures !After(events)[key].expired ==>
              After(events)[key] == Record(Ingress(events[i]), events[i].insertTime, false)
    decreases |events|
  {
    hide Ingress, IsIpv6, IsBroadcast;
    var before, e := events[..|events| - 1], events[|events| - 1];
    assert events == before + [e] && events[..|before|] == before;
    if key in After(before) {
      i := FirstTeacherStays(before, key);
      FirstTaughtStays(before, e, i, key);
    } else {
      i := |before|;
      assert FirstTaught(events, i, key);
    }
  }

  /**
   * So a packet is sent to a single port only if its destination was first taught on that port, at most 300
   * seconds before.
   */
  lemma DeliveredWhereFirstTaught(events: seq<Event>, e: Event) returns (i: nat)
    requires Unicast(e) && Find(After(events), Dest(e.packet), e.destTime) != -1
    ensures FirstTaught(events, i, Dest(e.packet))
    ensures e.destTime - events[i].insertTime <= ENTRY_TTL
    ensures forall r :: r in Recipients(After(events), e) ==> r.port == Ingress(events[i])
  {
    hide After, FirstTaught;
    i := FirstTeacherStays(events, Dest(e.packet));
    KnownDestination(After(events), e);
  }

  /** Once an entry has expired, packets to the address are flooded for ever, whatever its owner sends. */
  lemma {:induction false} ExpiredForGood(events: seq<Event>, more: seq<Event>, key: Key, now: int)
    requires key in After(events) && After(events)[key].expired
    ensures key in After(events + more) && After(events + more)[key].expired
    ensures Find(After(events + more), key, now) == -1
    decreases |more|
  {
    if more == [] {
      assert events + more == events;
    } else {
      var init, last := more[..|more| - 1], more[|more| - 1];
      ExpiredForGood(events, init, key, now);
      assert (events + more)[..|events + more| - 1] == events + init;
    }
  }
}
