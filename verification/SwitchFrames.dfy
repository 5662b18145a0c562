/** Runs of the forwarding decision, in terms of the bytes of the frames: destination, source and type. */
module SwitchFrames {
  import opened MacTable
  import opened Dispatch
  import opened Switch

  // ---- frames

  /** The frame comes in under a known descriptor of the port. */
  predicate ArrivesOn(e: Event, port: int) {
    e.fd in e.fdTable && e.fdTable[e.fd].port == port
  }

  /** Its type is 0x86dd. */
  predicate HasType86dd(e: Event) {
    e.packet.bytes[12] == 0x86 && e.packet.bytes[13] == 0xdd
  }

  /** Its destination is a station and not a group, and its type is another. */
  predicate ToStation(e: Event) {
    e.packet.bytes[0] % 2 == 0 && !HasType86dd(e)
  }


  // ---- recipients

  /** All endpoints that are not on the port, in their order. */
  ghost predicate AllBut(sent: seq<Endpoint>, all: seq<Endpoint>, port: int)
    decreases |all|
  {
    if all == [] then sent == []
    else if all[0].port == port then AllBut(sent, all[1..], port)
    else sent != [] && sent[0] == all[0] && AllBut(sent[1..], all[1..], port)
  }

  /** The first endpoint on the port and nobody else; nobody if there is none. */
  ghost predicate OnlyFirst(sent: seq<Endpoint>, all: seq<Endpoint>, port: int) {
    (sent == [] && forall e :: e in all ==> e.port != port)
    || exists i :: 0 <= i < |all| && all[i].port == port && sent == [all[i]]
                   && forall j :: 0 <= j < i ==> all[j].port != port
  }

  lemma {:induction false} OthersAreAllBut(all: seq<Endpoint>, port: int)
    ensures AllBut(Others(all, port), all, port)
    decreases |all|
  {
    if all != [] {
      OthersAreAllBut(all[1..], port);
      if all[0].port != port {
        assert Others(all, port)[1..] == Others(all[1..], port);
      } else {
        assert Others(all, port) == Others(all[1..], port);
      }
    }
  }

  lemma {:induction false} FirstAtIsOnlyFirst(all: seq<Endpoint>, port: int)
    ensures OnlyFirst(FirstAt(all, port), all, port)
    decreases |all|
  {
    if all != [] && all[0].port != port {
      var rest := all[1..];
      FirstAtIsOnlyFirst(rest, port);
      if i :| 0 <= i < |rest| && rest[i].port == port && FirstAt(rest, port) == [rest[i]]
              && forall j :: 0 <= j < i ==> rest[j].port != port {
        assert all[i + 1] == rest[i];
        forall j | 0 <= j < i + 1
          ensures all[j].port != port
        {
          assert j > 0 ==> all[j] == rest[j - 1];
        }
      } else {
        forall e | e in all
          ensures e.port != port
        {
        }
      }
    }
  }

  // ---- one frame

  lemma OddIsGroup(b: bv8)
    ensures b & 1 == 1 <==> b % 2 != 0
  {
  }

  lemma StationIsUnicast(e: Event)
    ensures IsIpv6(e.packet) <==> HasType86dd(e)
    ensures e.fd in e.fdTable ==> (Unicast(e) <==> ToStation(e))
    ensures Src(e.packet) == Key(e.packet.bytes[6..12], 1) && Dest(e.packet) == Key(e.packet.bytes[..6], 1)
  {
    OddIsGroup(e.packet.bytes[0]);
  }

  /** A frame to a group goes to all endpoints on other ports, and teaches nothing. */
  lemma GroupIsFlooded(t: Table, e: Event, port: int)
    requires ArrivesOn(e, port) && e.packet.bytes[0] % 2 != 0 && !HasType86dd(e)
    ensures AllBut(Recipients(t, e), Listed(e.endpoints), port) && Switched(t, e) == t
  {
    hide AllBut, Others, Listed;
    OddIsGroup(e.packet.bytes[0]);
    StationIsUnicast(e);
    OthersAreAllBut(Listed(e.endpoints), port);
  }

  /** A frame of type 0x86dd, or under an unknown descriptor, goes to nobody and teaches nothing. */
  lemma NotLookedAt(t: Table, e: Event)
    requires HasType86dd(e) || e.fd !in e.fdTable
    ensures Recipients(t, e) == [] && Switched(t, e) == t
  {
    StationIsUnicast(e);
  }

  /** A frame to a station that nothing has come from goes to all endpoints on other ports. */
  lemma UnknownIsFlooded(events: seq<Event>, e: Event, port: int)
    requires ArrivesOn(e, port) && ToStation(e)
    requires forall f :: f in events ==> f.packet.bytes[6..12] != e.packet.bytes[..6]
    ensures AllBut(Recipients(Switch.After(events), e), Listed(e.endpoints), port)
  {
    hide AllBut, Others, Listed, Switch.After;
    StationIsUnicast(e);
    NotSeen(events, e.packet.bytes[..6]);
    OthersAreAllBut(Listed(e.endpoints), port);
  }

  lemma NotSeen(events: seq<Event>, mac: Mac)
    requires forall f :: f in events ==> f.packet.bytes[6..12] != mac
    ensures Key(mac, 1) !in Switch.After(events)
  {
    hide Switch.After;
    forall i | 0 <= i < |events|
      ensures Src(events[i].packet) != Key(mac, 1)
    {
      assert events[i] in events;
      StationIsUnicast(events[i]);
    }
    if Key(mac, 1) in Switch.After(events) {
      var i := EveryEntryWasTaught(events, Key(mac, 1));
    }
  }

  // ---- learned and delivered

  /** The entry the first frame made, unless it has expired. */
  ghost predicate Keeps(t: Table, key: Key, port: int, time: int) {
    key in t && (t[key].expired || t[key] == Record(port, time, false))
  }

  lemma SwitchedKeeps(t: Table, e: Event, key: Key, port: int, time: int)
    requires Keeps(t, key, port, time) && port > 0
    ensures Keeps(Switched(t, e), key, port, time)
    ensures !t[key].expired && e.destTime <= time + 300 && e.srcTime <= time + 300 ==> !Switched(t, e)[key].expired
  {
    hide Unicast, Ingress;
  }

  lemma {:induction false} RunKeepsEntry(events: seq<Event>, more: seq<Event>, key: Key, port: int, time: int)
    requires port > 0 && key in Switch.After(events) && Switch.After(events)[key] == Record(port, time, false)
    ensures Keeps(Switch.After(events + more), key, port, time)
    ensures (forall e :: e in more ==> e.destTime <= time + 300 && e.srcTime <= time + 300) ==>
              !Switch.After(events + more)[key].expired
    decreases |more|
  {
    hide Switched;
    if more == [] {
      assert events + more == events;
    } else {
      var init, last := more[..|more| - 1], more[|more| - 1];
      RunKeepsEntry(events, init, key, port, time);
      assert (events + more)[..|events + more| - 1] == events + init;
      SwitchedKeeps(Switch.After(events + init), last, key, port, time);
    }
  }

  /** A frame from a station not seen before is learned from, if nothing came from its destination on its own port. */
  lemma FirstIsLearned(events: seq<Event>, first: Event, port: int)
    requires ArrivesOn(first, port) && ToStation(first)
    requires forall f :: f in events ==> f.packet.bytes[6..12] != first.packet.bytes[6..12]
    requires forall f :: f in events && ArrivesOn(f, port) ==> f.packet.bytes[6..12] != first.packet.bytes[..6]
    ensures var key := Key(first.packet.bytes[6..12], 1);
            var t := Switch.After(events + [first]);
            key in t && t[key] == Record(port, first.insertTime, false)
  {
    StationIsUnicast(first);
    NotSeen(events, first.packet.bytes[6..12]);
    var t, to := Switch.After(events), Dest(first.packet);
    forall i | 0 <= i < |events|
      ensures !Taught(events, i, to, port)
    {
      assert events[i] in events;
      StationIsUnicast(events[i]);
    }
    if Find(t, to, first.destTime) == port {
      var i := EveryEntryWasTaught(events, to);
    }
    assert (events + [first])[..|events|] == events;
  }

  /**
   * A station heard on a port is found there: for 300 seconds after its first frame, and whatever frames come
   * between, a frame to it from another port goes to the first endpoint on its port and to nobody else, and one
   * from its own port to nobody.
   */
  lemma StationIsFound(events: seq<Event>, first: Event, more: seq<Event>, last: Event, port: int, from: int)
    requires ArrivesOn(first, port) && ToStation(first) && ArrivesOn(last, from) && ToStation(last)
    requires forall f :: f in events ==> f.packet.bytes[6..12] != first.packet.bytes[6..12]
    requires forall f :: f in events && ArrivesOn(f, port) ==> f.packet.bytes[6..12] != first.packet.bytes[..6]
    requires forall e :: e in more ==> e.destTime <= first.insertTime + 300 && e.srcTime <= first.insertTime + 300
    requires last.packet.bytes[..6] == first.packet.bytes[6..12] && last.destTime <= first.insertTime + 300
    ensures var sent := Recipients(Switch.After(events + [first] + more), last);
            if from == port then sent == [] else OnlyFirst(sent, Listed(last.endpoints), port)
  {
    hide OnlyFirst, FirstAt, Listed, Switch.After, Switched;
    var key := Key(first.packet.bytes[6..12], 1);
    FirstIsLearned(events, first, port);
    RunKeepsEntry(events + [first], more, key, port, first.insertTime);
    StationIsUnicast(last);
    FirstAtIsOnlyFirst(Listed(last.endpoints), port);
  }

  /** Later than that, and for ever, frames to it go to all endpoints on other ports. */
  lemma StationIsForgotten(events: seq<Event>, first: Event, more: seq<Event>, last: Event, port: int, from: int)
    requires ArrivesOn(first, port) && ToStation(first) && ArrivesOn(last, from) && ToStation(last)
    requires forall f :: f in events ==> f.packet.bytes[6..12] != first.packet.bytes[6..12]
    requires forall f :: f in events && ArrivesOn(f, port) ==> f.packet.bytes[6..12] != first.packet.bytes[..6]
    requires last.packet.bytes[..6] == first.packet.bytes[6..12] && last.destTime > first.insertTime + 300
    ensures AllBut(Recipients(Switch.After(events + [first] + more), last), Listed(last.endpoints), from)
  {
    hide AllBut, Others, Listed, Switch.After, Switched;
    var key := Key(first.packet.bytes[6..12], 1);
    FirstIsLearned(events, first, port);
    RunKeepsEntry(events + [first], more, key, port, first.insertTime);
    StationIsUnicast(last);
    OthersAreAllBut(Listed(last.endpoints), from);
  }
}
