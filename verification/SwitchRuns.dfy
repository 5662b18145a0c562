/** The dispatcher, the workers and the forwarding decision together. */
module SwitchRuns {
  import opened MacTable
  import opened Dispatch
  import opened PacketFlow
  import opened Descriptors
  import opened Switch

  /** The clock as the three table operations of one packet read it. */
  datatype Times = Times(dest: int, src: int, insert: int)

  /** The switch's descriptors and endpoints, and the clock during each turn. */
  datatype Network = Network(fdTable: map<int, Endpoint>, endpoints: EndpointList, clock: nat -> Times)

  /** A packet handled under a descriptor in turn k. */
  function EventOf(h: Handling, net: Network, k: nat): Event {
    var times := net.clock(k);
    Event(h.packet, h.fd, net.fdTable, net.endpoints, times.dest, times.src, times.insert)
  }

  /** Everything handled so far, by all workers, in the order it happened. */
  ghost function Events(s: System, net: Network): (events: seq<Event>)
    requires TurnsInv(s)
    ensures |events| == |s.turns|
  {
    seq(|s.turns|, k requires 0 <= k < |s.turns| && TurnsInv(s) =>
      EventOf(s.workers[s.turns[k].worker].handled[s.turns[k].index], net, k))
  }

  /** The descriptor that the packet of turn k really came in on. */
  ghost function ArrivedOn(s: System, k: nat): int
    requires TurnsInv(s) && k < |s.turns|
    requires s.turns[k].index < |s.workers[s.turns[k].worker].pushed|
  {
    s.workers[s.turns[k].worker].pushed[s.turns[k].index].fd
  }

  predicate SamePort(net: Network, a: int, b: int) {
    (a in net.fdTable <==> b in net.fdTable)
    && (a in net.fdTable ==> net.fdTable[a].port == net.fdTable[b].port)
  }

  /** Each worker's arrivals share a port. */
  ghost predicate OnePortEach(arrivals: seq<Arrival>, n: nat, net: Network)
    requires n > 0
  {
    forall a, b :: a in arrivals && b in arrivals && WorkerOf(a.packet, n) == WorkerOf(b.packet, n) ==>
      SamePort(net, a.fd, b.fd)
  }

  /** Turn k handled arrival j of all that were received, under the descriptor of arrival i. */
  lemma TurnInReach(s: System, net: Network, k: nat) returns (i: nat, j: nat)
    requires Reachable(s) && TurnsInv(s) && k < |s.turns|
    ensures s.turns[k].index < |s.workers[s.turns[k].worker].pushed| && s.workers != []
    ensures InReach(s.received, |s.workers|, s.capacity, i, j)
    ensures WorkerOf(s.received[j].packet, |s.workers|) == s.turns[k].worker
    ensures Rank(s.received, |s.workers|, j) == s.turns[k].index && ArrivedOn(s, k) == s.received[j].fd
    ensures Events(s, net)[k] == EventOf(Handling(s.received[j].packet, s.received[i].fd), net, k)
  {
    hide Reachable, WorkerOf, InReach, Rank;
    i, j := HandledInReach(s, s.turns[k].worker, s.turns[k].index);
  }

  // ---- sent back

  /** Turn k sent its packet to the port of the descriptor it came in on. */
  ghost predicate SentBack(s: System, net: Network, k: nat) {
    TurnsInv(s) && k < |s.turns| && s.turns[k].index < |s.workers[s.turns[k].worker].pushed|
    && ArrivedOn(s, k) in net.fdTable
    && exists r :: r in Recipients(Switch.After(Events(s, net)[..k]), Events(s, net)[k])
                   && r.port == net.fdTable[ArrivedOn(s, k)].port
  }

  /** These steps are a run over the arrivals only if it sends nothing back. */
  ghost predicate SendsNothingBack(n: nat, capacity: nat, arrivals: seq<Arrival>, net: Network, steps: seq<Step>) {
    var r := Run(Start(n, capacity), steps);
    r.Reached? && r.state.received <= arrivals ==> forall k: nat :: k < |r.state.turns| ==> !SentBack(r.state, net, k)
  }

  /** The clock never goes back. */
  ghost predicate Ticking(clock: nat -> Times) {
    (forall k: nat :: clock(k).dest <= clock(k).src <= clock(k).insert)
    && forall j: nat, k: nat :: j < k ==> clock(j).insert <= clock(k).dest
  }

  /**
   * Arrivals i and j come in on different known ports, the second is looked at, and there is somebody on the port it
   * came in on.
   */
  predicate Clash(arrivals: seq<Arrival>, fdTable: map<int, Endpoint>, endpoints: EndpointList, i: nat, j: nat)
    requires i < |arrivals| && j < |arrivals|
  {
    arrivals[i].fd in fdTable && arrivals[j].fd in fdTable && !IsIpv6(arrivals[j].packet)
    && fdTable[arrivals[i].fd].port != fdTable[arrivals[j].fd].port
    && exists own :: own in Listed(endpoints) && own.port == fdTable[arrivals[j].fd].port
  }

  /** Arrivals in reach of each other never clash. */
  ghost predicate NoClash(
      arrivals: seq<Arrival>, n: nat, capacity: nat, fdTable: map<int, Endpoint>, endpoints: EndpointList)
    requires n > 0
  {
    forall i: nat, j: nat :: InReach(arrivals, n, capacity, i, j) ==> !Clash(arrivals, fdTable, endpoints, i, j)
  }

  /** Then, whatever the clock shows, nothing is sent back. */
  lemma WithoutClash(s: System, net: Network, k: nat, arrivals: seq<Arrival>)
    requires Reachable(s) && s.workers != [] && s.received <= arrivals
    requires NoClash(arrivals, |s.workers|, s.capacity, net.fdTable, net.endpoints)
    ensures !SentBack(s, net, k)
  {
    hide Reachable, TurnsInv, WorkerOf, Rank, Recipients, Switch.After;
    if SentBack(s, net, k) {
      var i, j := TurnInReach(s, net, k);
      InReachExtends(s.received, arrivals, |s.workers|, s.capacity, i, j);
      var t, e := Switch.After(Events(s, net)[..k]), Events(s, net)[k];
      NeverToIngress(t, e);
      LookedAt(t, e);
    }
  }

  lemma LookedAt(t: Table, e: Event)
    ensures Recipients(t, e) != [] ==> e.fd in e.fdTable && !IsIpv6(e.packet)
  {
  }

  /** Turn `last` comes more than 300 seconds after all before it. */
  ghost predicate Late(clock: nat -> Times, last: nat) {
    forall k: nat :: k < last ==> clock(last).dest - clock(k).insert > ENTRY_TTL
  }

  function LateClock(last: nat): nat -> Times {
    (k: nat) => if k < last then Times(0, 0, 0) else Times(ENTRY_TTL + 1, ENTRY_TTL + 1, ENTRY_TTL + 1)
  }

  /** No entry is newer than the packets that can have taught it. */
  lemma {:induction false} EntriesAreOld(events: seq<Event>, time: int)
    requires forall e :: e in events ==> e.insertTime < time
    ensures forall key :: key in Switch.After(events) ==> Switch.After(events)[key].lastSeen < time
    decreases |events|
  {
    hide Unicast, Ingress, Find, Learns;
    if events != [] {
      EntriesAreOld(events[..|events| - 1], time);
      assert events[|events| - 1] in events;
    }
  }

  /** In a late turn no address is found. */
  lemma NothingFound(s: System, net: Network, last: nat)
    requires TurnsInv(s) && last < |s.turns| && Late(net.clock, last)
    ensures forall key :: Find(Switch.After(Events(s, net)[..last]), key, net.clock(last).dest) == -1
  {
    hide TurnsInv, Switch.After;
    EntriesAreOld(Events(s, net)[..last], net.clock(last).dest - ENTRY_TTL);
  }

  /**
   * For any two clashing arrivals in reach there is a run that sends the second one back, at once if it is a
   * broadcast packet, and otherwise when its turn comes late, so that it is flooded.
   */
  lemma ClashIsSentBack(
      n: nat, capacity: nat, arrivals: seq<Arrival>, fdTable: map<int, Endpoint>, endpoints: EndpointList,
      i: nat, j: nat)
    returns (steps: seq<Step>, s: System)
    requires n > 0 && capacity > 0 && InReach(arrivals, n, capacity, i, j) && Clash(arrivals, fdTable, endpoints, i, j)
    ensures Run(Start(n, capacity), steps) == Reached(s) && s.received == arrivals[..j + 1] && s.turns != []
    ensures forall clock: nat -> Times :: IsBroadcast(Dest(arrivals[j].packet).mac) || Late(clock, |s.turns| - 1) ==>
              SentBack(s, Network(fdTable, endpoints, clock), |s.turns| - 1)
  {
    hide Run, WorkerOf, Rank, Switch.After;
    steps, s := UnderEarlier(n, capacity, arrivals, i, j);
    RunTurnsInv(n, capacity, steps, s);
    var last := |s.turns| - 1;
    forall clock: nat -> Times | IsBroadcast(Dest(arrivals[j].packet).mac) || Late(clock, last)
      ensures SentBack(s, Network(fdTable, endpoints, clock), last)
    {
      var net := Network(fdTable, endpoints, clock);
      if Late(clock, last) {
        NothingFound(s, net, last);
      }
      var own :| own in Listed(endpoints) && own.port == fdTable[arrivals[j].fd].port;
      assert Events(s, net)[last] == EventOf(Handling(arrivals[j].packet, arrivals[i].fd), net, last);
      assert own in Recipients(Switch.After(Events(s, net)[..last]), Events(s, net)[last]);
    }
  }

  lemma RunTurnsInv(n: nat, capacity: nat, steps: seq<Step>, s: System)
    requires n > 0 && capacity > 0 && Run(Start(n, capacity), steps) == Reached(s)
    ensures Reachable(s) && TurnsInv(s) && |s.workers| == n && s.capacity == capacity
  {
    hide Run, TurnsInv;
    RunKeepsSize(n, capacity, steps);
    ReachableTurns(s);
  }

  /**
   * Over these arrivals, with this pipe, no run with any clock sends a packet to the port it came in on, exactly if
   * arrivals in reach of each other never clash.
   */
  lemma NeverSentBackIff(
      n: nat, capacity: nat, arrivals: seq<Arrival>, fdTable: map<int, Endpoint>, endpoints: EndpointList)
    requires n > 0 && capacity > 0
    ensures (forall clock, steps :: Ticking(clock) ==>
               SendsNothingBack(n, capacity, arrivals, Network(fdTable, endpoints, clock), steps))
            <==> NoClash(arrivals, n, capacity, fdTable, endpoints)
  {
    hide Run, WorkerOf, Rank, Clash, SentBack;
    if NoClash(arrivals, n, capacity, fdTable, endpoints) {
      forall clock, steps | Ticking(clock)
        ensures SendsNothingBack(n, capacity, arrivals, Network(fdTable, endpoints, clock), steps)
      {
        RunWithoutClash(n, capacity, arrivals, Network(fdTable, endpoints, clock), steps);
      }
    } else {
      var i: nat, j: nat :| InReach(arrivals, n, capacity, i, j) && Clash(arrivals, fdTable, endpoints, i, j);
      var steps, s := ClashIsSentBack(n, capacity, arrivals, fdTable, endpoints, i, j);
      var clock := LateClock(|s.turns| - 1);
      assert Ticking(clock) && Late(clock, |s.turns| - 1);
      assert !SendsNothingBack(n, capacity, arrivals, Network(fdTable, endpoints, clock), steps);
    }
  }

  lemma RunWithoutClash(n: nat, capacity: nat, arrivals: seq<Arrival>, net: Network, steps: seq<Step>)
    requires n > 0 && capacity > 0 && NoClash(arrivals, n, capacity, net.fdTable, net.endpoints)
    ensures SendsNothingBack(n, capacity, arrivals, net, steps)
  {
    hide Run, SentBack, NoClash;
    var r := Run(Start(n, capacity), steps);
    if r.Reached? && r.state.received <= arrivals {
      RunTurnsInv(n, capacity, steps, r.state);
      forall k: nat
        ensures !SentBack(r.state, net, k)
      {
        WithoutClash(r.state, net, k, arrivals);
      }
    }
  }

  /** With pipes of any size, exactly if no arrival clashes with an earlier one of its worker. */
  lemma NeverSentBackAnyPipe(n: nat, arrivals: seq<Arrival>, fdTable: map<int, Endpoint>, endpoints: EndpointList)
    requires n > 0
    ensures (forall capacity: nat, clock, steps :: capacity > 0 && Ticking(clock) ==>
               SendsNothingBack(n, capacity, arrivals, Network(fdTable, endpoints, clock), steps))
            <==> forall i, j :: 0 <= i < j < |arrivals| && SameWorker(arrivals, n, i, j) ==>
                   !Clash(arrivals, fdTable, endpoints, i, j)
  {
    hide WorkerOf, Rank, SendsNothingBack;
    if i, j :| 0 <= i < j < |arrivals| && SameWorker(arrivals, n, i, j) && Clash(arrivals, fdTable, endpoints, i, j) {
      var capacity: nat := |arrivals| + 1;
      RankBound(arrivals, n, j);
      assert InReach(arrivals, n, capacity, i, j);
      NeverSentBackIff(n, capacity, arrivals, fdTable, endpoints);
      assert !NoClash(arrivals, n, capacity, fdTable, endpoints);
    } else {
      forall capacity: nat, clock, steps | capacity > 0 && Ticking(clock)
        ensures SendsNothingBack(n, capacity, arrivals, Network(fdTable, endpoints, clock), steps)
      {
        RunWithoutClash(n, capacity, arrivals, Network(fdTable, endpoints, clock), steps);
      }
    }
  }

  lemma {:induction false} ForWorkerIsShort(arrivals: seq<Arrival>, w: nat, n: nat)
    requires n > 0
    ensures |ForWorker(arrivals, w, n)| <= |arrivals|
    decreases |arrivals|
  {
    hide WorkerOf;
    if arrivals != [] {
      ForWorkerIsShort(arrivals[..|arrivals| - 1], w, n);
    }
  }

  lemma RankBound(arrivals: seq<Arrival>, n: nat, j: nat)
    requires n > 0 && j < |arrivals|
    ensures Rank(arrivals, n, j) <= j
  {
    hide WorkerOf;
    ForWorkerIsShort(arrivals[..j], WorkerOf(arrivals[j].packet, n), n);
  }

  // ---- learned elsewhere

  /** Every address is known on a port that one of its own packets came in on. */
  ghost predicate LearnedRight(s: System, net: Network) {
    TurnsInv(s) ==>
      forall key :: key in Switch.After(Events(s, net)) ==>
        exists m: nat :: CameIn(s.received, net.fdTable, m, key, Switch.After(Events(s, net))[key].port)
  }

  /** Arrival m is from the address and comes in on the port. */
  predicate CameIn(arrivals: seq<Arrival>, fdTable: map<int, Endpoint>, m: nat, key: Key, port: int) {
    m < |arrivals| && Src(arrivals[m].packet) == key && arrivals[m].fd in fdTable
    && fdTable[arrivals[m].fd].port == port
  }

  ghost predicate LearnsRight(n: nat, capacity: nat, arrivals: seq<Arrival>, net: Network, steps: seq<Step>) {
    var r := Run(Start(n, capacity), steps);
    r.Reached? && r.state.received <= arrivals ==> LearnedRight(r.state, net)
  }

  /** Handled under the descriptor of arrival i, arrival l is a packet to learn the address from. */
  predicate Teaches(arrivals: seq<Arrival>, fdTable: map<int, Endpoint>, i: nat, l: nat, key: Key)
    requires i < |arrivals| && l < |arrivals|
  {
    arrivals[i].fd in fdTable && Src(arrivals[l].packet) == key
    && !IsIpv6(arrivals[l].packet) && !IsBroadcast(Dest(arrivals[l].packet).mac)
  }

  /** Arrival j is a packet to learn from, and neither it nor one before it comes from its address on i's port. */
  ghost predicate Misleads(arrivals: seq<Arrival>, fdTable: map<int, Endpoint>, i: nat, j: nat)
    requires i < |arrivals| && j < |arrivals|
  {
    Teaches(arrivals, fdTable, i, j, Src(arrivals[j].packet))
    && forall m: nat :: CameIn(arrivals, fdTable, m, Src(arrivals[j].packet), fdTable[arrivals[i].fd].port) ==> m > j
  }

  ghost predicate NoneMisleads(arrivals: seq<Arrival>, n: nat, capacity: nat, fdTable: map<int, Endpoint>)
    requires n > 0
  {
    forall i: nat, j: nat :: InReach(arrivals, n, capacity, i, j) ==> !Misleads(arrivals, fdTable, i, j)
  }

  /** Where an entry comes from: a packet handled under the descriptor of an arrival in reach. */
  lemma EntryInReach(s: System, net: Network, k: nat, key: Key) returns (i: nat, j: nat)
    requires Reachable(s) && TurnsInv(s) && k <= |s.turns| && key in Switch.After(Events(s, net)[..k])
    ensures s.workers != [] && InReach(s.received, |s.workers|, s.capacity, i, j)
    ensures Teaches(s.received, net.fdTable, i, j, key)
    ensures Switch.After(Events(s, net)[..k])[key].port == net.fdTable[s.received[i].fd].port
  {
    hide Reachable, TurnsInv, WorkerOf, Rank, Switch.After;
    var taught := EveryEntryWasTaught(Events(s, net)[..k], key);
    i, j := TurnInReach(s, net, taught);
  }

  lemma WithoutMisleading(s: System, net: Network, arrivals: seq<Arrival>)
    requires Reachable(s) && s.workers != [] && s.received <= arrivals
    requires NoneMisleads(arrivals, |s.workers|, s.capacity, net.fdTable)
    ensures LearnedRight(s, net)
  {
    hide Reachable, TurnsInv, WorkerOf, Rank, Switch.After;
    if TurnsInv(s) {
      var events := Events(s, net);
      assert events[..|events|] == events;
      forall key | key in Switch.After(events)
        ensures exists m: nat :: CameIn(s.received, net.fdTable, m, key, Switch.After(events)[key].port)
      {
        var i, j := EntryInReach(s, net, |s.turns|, key);
        InReachExtends(s.received, arrivals, |s.workers|, s.capacity, i, j);
        assert !Misleads(arrivals, net.fdTable, i, j);
        var m: nat :| CameIn(arrivals, net.fdTable, m, key, Switch.After(events)[key].port) && m <= j;
        assert CameIn(s.received, net.fdTable, m, key, Switch.After(events)[key].port);
      }
    }
  }

  lemma RunWithoutMisleading(n: nat, capacity: nat, arrivals: seq<Arrival>, net: Network, steps: seq<Step>)
    requires n > 0 && capacity > 0 && NoneMisleads(arrivals, n, capacity, net.fdTable)
    ensures LearnsRight(n, capacity, arrivals, net, steps)
  {
    hide Run, LearnedRight, NoneMisleads;
    var r := Run(Start(n, capacity), steps);
    if r.Reached? && r.state.received <= arrivals {
      RunTurnsInv(n, capacity, steps, r.state);
      WithoutMisleading(r.state, net, arrivals);
    }
  }

  /** A packet to learn from, whose turn comes late, is learned from. */
  lemma LateLearning(events: seq<Event>, e: Event)
    requires Unicast(e) && forall key :: Find(Switch.After(events), key, e.destTime) == -1
    requires e.destTime <= e.srcTime
    ensures var t := Switch.After(events + [e]); Src(e.packet) in t && t[Src(e.packet)].port == Ingress(e)
  {
    hide Unicast, Ingress;
    assert (events + [e])[..|events|] == events;
    assert Find(Switch.After(events), Src(e.packet), e.destTime) == -1;
    assert Find(Switch.After(events), Dest(e.packet), e.destTime) == -1;
  }

  lemma CameInBefore(a: seq<Arrival>, b: seq<Arrival>, fdTable: map<int, Endpoint>, key: Key, port: int)
    requires a <= b
    ensures forall m: nat :: CameIn(a, fdTable, m, key, port) ==> m < |a| && CameIn(b, fdTable, m, key, port)
  {
  }

  /** A misleading arrival in reach is learned from on the wrong port when its turn comes late. */
  lemma MisleadingIsLearned(
      n: nat, capacity: nat, arrivals: seq<Arrival>, fdTable: map<int, Endpoint>, endpoints: EndpointList,
      i: nat, j: nat)
    returns (steps: seq<Step>, s: System)
    requires n > 0 && capacity > 0 && InReach(arrivals, n, capacity, i, j) && Misleads(arrivals, fdTable, i, j)
    ensures Run(Start(n, capacity), steps) == Reached(s) && s.received == arrivals[..j + 1] && s.turns != []
    ensures forall clock: nat -> Times :: Ticking(clock) && Late(clock, |s.turns| - 1) ==>
              !LearnedRight(s, Network(fdTable, endpoints, clock))
  {
    hide Run, WorkerOf, Rank, Switch.After, TurnsInv;
    steps, s := UnderEarlier(n, capacity, arrivals, i, j);
    RunTurnsInv(n, capacity, steps, s);
    var last := |s.turns| - 1;
    forall clock: nat -> Times | Ticking(clock) && Late(clock, last)
      ensures !LearnedRight(s, Network(fdTable, endpoints, clock))
    {
      var net := Network(fdTable, endpoints, clock);
      var events := Events(s, net);
      NothingFound(s, net, last);
      assert events[last] == EventOf(Handling(arrivals[j].packet, arrivals[i].fd), net, last);
      LateLearning(events[..last], events[last]);
      assert events[..last] + [events[last]] == events;
      var key, port := Src(arrivals[j].packet), fdTable[arrivals[i].fd].port;
      assert key in Switch.After(events) && Switch.After(events)[key].port == port;
      CameInBefore(s.received, arrivals, fdTable, key, port);
    }
  }

  /**
   * Over these arrivals, with this pipe, every run with any clock knows addresses only on ports their own packets
   * came in on, exactly if no arrival misleads under one in reach.
   */
  lemma LearnedRightIff(
      n: nat, capacity: nat, arrivals: seq<Arrival>, fdTable: map<int, Endpoint>, endpoints: EndpointList)
    requires n > 0 && capacity > 0
    ensures (forall clock, steps :: Ticking(clock) ==>
               LearnsRight(n, capacity, arrivals, Network(fdTable, endpoints, clock), steps))
            <==> NoneMisleads(arrivals, n, capacity, fdTable)
  {
    hide Run, WorkerOf, Rank, Misleads, LearnedRight;
    if NoneMisleads(arrivals, n, capacity, fdTable) {
      forall clock, steps | Ticking(clock)
        ensures LearnsRight(n, capacity, arrivals, Network(fdTable, endpoints, clock), steps)
      {
        RunWithoutMisleading(n, capacity, arrivals, Network(fdTable, endpoints, clock), steps);
      }
    } else {
      var i: nat, j: nat :| InReach(arrivals, n, capacity, i, j) && Misleads(arrivals, fdTable, i, j);
      var steps, s := MisleadingIsLearned(n, capacity, arrivals, fdTable, endpoints, i, j);
      var clock := LateClock(|s.turns| - 1);
      assert Ticking(clock) && Late(clock, |s.turns| - 1);
      assert !LearnsRight(n, capacity, arrivals, Network(fdTable, endpoints, clock), steps);
    }
  }

  /** With pipes of any size, exactly if no arrival misleads under an earlier one of its worker. */
  lemma LearnedRightAnyPipe(n: nat, arrivals: seq<Arrival>, fdTable: map<int, Endpoint>, endpoints: EndpointList)
    requires n > 0
    ensures (forall capacity: nat, clock, steps :: capacity > 0 && Ticking(clock) ==>
               LearnsRight(n, capacity, arrivals, Network(fdTable, endpoints, clock), steps))
            <==> forall i, j :: 0 <= i < j < |arrivals| && SameWorker(arrivals, n, i, j) ==>
                   !Misleads(arrivals, fdTable, i, j)
  {
    hide WorkerOf, Rank, LearnsRight;
    if i, j :| 0 <= i < j < |arrivals| && SameWorker(arrivals, n, i, j) && Misleads(arrivals, fdTable, i, j) {
      var capacity: nat := |arrivals| + 1;
      RankBound(arrivals, n, j);
      assert InReach(arrivals, n, capacity, i, j);
      LearnedRightIff(n, capacity, arrivals, fdTable, endpoints);
      assert !NoneMisleads(arrivals, n, capacity, fdTable);
    } else {
      forall i | 0 <= i < |arrivals|
        ensures !Misleads(arrivals, fdTable, i, i)
      {
        MisleadsNotItself(arrivals, fdTable, i);
      }
      forall capacity: nat, clock, steps | capacity > 0 && Ticking(clock)
        ensures LearnsRight(n, capacity, arrivals, Network(fdTable, endpoints, clock), steps)
      {
        RunWithoutMisleading(n, capacity, arrivals, Network(fdTable, endpoints, clock), steps);
      }
    }
  }

  lemma MisleadsNotItself(arrivals: seq<Arrival>, fdTable: map<int, Endpoint>, i: nat)
    requires i < |arrivals|
    ensures !Misleads(arrivals, fdTable, i, i)
  {
    if arrivals[i].fd in fdTable {
      assert CameIn(arrivals, fdTable, i, Src(arrivals[i].packet), fdTable[arrivals[i].fd].port);
    }
  }

  // ---- one port for each worker

  /** What turn k handled, and under which descriptor. */
  lemma TurnOf(s: System, net: Network, k: nat)
    requires Reachable(s) && TurnsInv(s) && k < |s.turns| && s.workers != []
    requires OnePortEach(s.received, |s.workers|, net)
    ensures s.turns[k].index < |s.workers[s.turns[k].worker].pushed|
    ensures SamePort(net, ArrivedOn(s, k), Events(s, net)[k].fd)
  {
    hide Reachable, TurnsInv, WorkerOf, SamePort, Rank;
    var i, j := TurnInReach(s, net, k);
    assert s.received[i] in s.received && s.received[j] in s.received;
  }

  /** If each worker's arrivals share a port, no packet is ever sent to the port it came in on. */
  lemma NeverBackToOwnPort(s: System, net: Network, k: nat)
    requires Reachable(s) && TurnsInv(s) && k < |s.turns| && s.workers != []
    requires OnePortEach(s.received, |s.workers|, net)
    ensures s.turns[k].index < |s.workers[s.turns[k].worker].pushed|
    ensures var events := Events(s, net);
            var own := ArrivedOn(s, k);
            forall r :: r in Recipients(Switch.After(events[..k]), events[k]) ==>
              own in net.fdTable && r.port != net.fdTable[own].port
  {
    hide Reachable, TurnsInv, Recipients, WorkerOf, Rank, Switch.After;
    TurnOf(s, net, k);
    OnePortNoClash(s.received, |s.workers|, s.capacity, net);
    WithoutClash(s, net, k, s.received);
    var events := Events(s, net);
    NeverToIngress(Switch.After(events[..k]), events[k]);
  }

  lemma OnePortNoClash(arrivals: seq<Arrival>, n: nat, capacity: nat, net: Network)
    requires n > 0 && OnePortEach(arrivals, n, net)
    ensures NoClash(arrivals, n, capacity, net.fdTable, net.endpoints)
  {
    hide WorkerOf, Rank;
    forall i: nat, j: nat | InReach(arrivals, n, capacity, i, j)
      ensures !Clash(arrivals, net.fdTable, net.endpoints, i, j)
    {
      assert arrivals[i] in arrivals && arrivals[j] in arrivals;
      assert SamePort(net, arrivals[i].fd, arrivals[j].fd);
    }
  }

  /** Nor is an address ever learned on another port than one of its packets came in on. */
  lemma LearnedOnOwnPort(s: System, net: Network, key: Key) returns (k: nat)
    requires Reachable(s) && TurnsInv(s) && s.workers != [] && OnePortEach(s.received, |s.workers|, net)
    requires key in Switch.After(Events(s, net))
    ensures k < |s.turns| && s.turns[k].index < |s.workers[s.turns[k].worker].pushed|
    ensures Src(Events(s, net)[k].packet) == key && ArrivedOn(s, k) in net.fdTable
    ensures Switch.After(Events(s, net))[key].port == net.fdTable[ArrivedOn(s, k)].port
  {
    hide Reachable, TurnsInv, OnePortEach, Switch.After;
    k := EveryEntryWasTaught(Events(s, net), key);
    TurnOf(s, net, k);
  }

  // ---- delivered

  /** Turn k handled arrival j, and sent it to an endpoint on the port, perhaps among others. */
  ghost predicate Delivers(s: System, net: Network, k: nat, port: int) {
    TurnsInv(s) && k < |s.turns|
    && exists r :: r in Recipients(Switch.After(Events(s, net)[..k]), Events(s, net)[k]) && r.port == port
  }

  /** If these steps are a run over the arrivals, whoever handles arrival j in it sends it to the port. */
  ghost predicate AlwaysDelivers(
      n: nat, capacity: nat, arrivals: seq<Arrival>, net: Network, j: nat, port: int, steps: seq<Step>)
    requires n > 0 && j < |arrivals|
  {
    var r := Run(Start(n, capacity), steps);
    r.Reached? && r.state.received <= arrivals ==>
      forall k: nat :: k < |r.state.turns|
                       && r.state.turns[k] == Turn(WorkerOf(arrivals[j].packet, n), Rank(arrivals, n, j)) ==>
        Delivers(r.state, net, k, port)
  }

  /** Whatever is learned about the address is learned on the port. */
  ghost predicate KnownOnlyOn(
      arrivals: seq<Arrival>, n: nat, capacity: nat, fdTable: map<int, Endpoint>, key: Key, port: int)
    requires n > 0
  {
    forall i: nat, l: nat :: InReach(arrivals, n, capacity, i, l) && Teaches(arrivals, fdTable, i, l, key) ==>
      fdTable[arrivals[i].fd].port == port
  }

  /** All descriptors that arrival j can be handled under are known, and on other ports. */
  ghost predicate ElsewhereInReach(
      arrivals: seq<Arrival>, n: nat, capacity: nat, fdTable: map<int, Endpoint>, j: nat, port: int)
    requires n > 0
  {
    forall i: nat :: InReach(arrivals, n, capacity, i, j) ==>
      arrivals[i].fd in fdTable && fdTable[arrivals[i].fd].port != port
  }

  lemma OneDecision(t: Table, e: Event, port: int)
    requires !IsIpv6(e.packet) && !IsBroadcast(Dest(e.packet).mac)
    requires Dest(e.packet) in t ==> t[Dest(e.packet)].port == port
    requires e.fd in e.fdTable && Ingress(e) != port && exists r :: r in Listed(e.endpoints) && r.port == port
    ensures exists r :: r in Recipients(t, e) && r.port == port
  {
    var r :| r in Listed(e.endpoints) && r.port == port;
    if Find(t, Dest(e.packet), e.destTime) == -1 {
      assert r in Recipients(t, e);
    } else {
      var sent := FirstAt(Listed(e.endpoints), port);
      assert sent != [] && sent[0] in sent && sent[0].port == port;
      KnownRecipients(t, e);
    }
  }

  lemma KnownRecipients(t: Table, e: Event)
    requires Unicast(e) && Find(t, Dest(e.packet), e.destTime) != -1 && t[Dest(e.packet)].port != Ingress(e)
    ensures Recipients(t, e) == FirstAt(Listed(e.endpoints), t[Dest(e.packet)].port)
  {
    hide FirstAt, Listed;
  }

  lemma DeliveredAt(s: System, net: Network, k: nat, arrivals: seq<Arrival>, j: nat, port: int)
    requires Reachable(s) && TurnsInv(s) && s.workers != [] && s.received <= arrivals && j < |arrivals|
    requires k < |s.turns|
    requires s.turns[k] == Turn(WorkerOf(arrivals[j].packet, |s.workers|), Rank(arrivals, |s.workers|, j))
    requires !IsIpv6(arrivals[j].packet) && !IsBroadcast(Dest(arrivals[j].packet).mac)
    requires exists r :: r in Listed(net.endpoints) && r.port == port
    requires KnownOnlyOn(arrivals, |s.workers|, s.capacity, net.fdTable, Dest(arrivals[j].packet), port)
    requires ElsewhereInReach(arrivals, |s.workers|, s.capacity, net.fdTable, j, port)
    ensures Delivers(s, net, k, port)
  {
    hide Reachable, TurnsInv, WorkerOf, Rank, Switch.After, KnownOnlyOn;
    var i := UnderOneInReach(s, net, k, arrivals, j);
    var t, e := Switch.After(Events(s, net)[..k]), Events(s, net)[k];
    KnownOnPort(s, net, k, arrivals, Dest(e.packet), port);
    OneDecision(t, e, port);
  }

  lemma UnderOneInReach(s: System, net: Network, k: nat, arrivals: seq<Arrival>, j: nat) returns (i: nat)
    requires Reachable(s) && TurnsInv(s) && s.workers != [] && s.received <= arrivals && j < |arrivals|
    requires k < |s.turns|
    requires s.turns[k] == Turn(WorkerOf(arrivals[j].packet, |s.workers|), Rank(arrivals, |s.workers|, j))
    ensures InReach(arrivals, |s.workers|, s.capacity, i, j)
    ensures Events(s, net)[k] == EventOf(Handling(arrivals[j].packet, arrivals[i].fd), net, k)
  {
    hide Reachable, TurnsInv, WorkerOf, Rank;
    var j';
    i, j' := TurnInReach(s, net, k);
    InReachExtends(s.received, arrivals, |s.workers|, s.capacity, i, j');
    SameRank(s.received, arrivals, |s.workers|, j');
    PlacesInOrder(arrivals, |s.workers|, j, j');
    PlacesInOrder(arrivals, |s.workers|, j', j);
  }

  lemma KnownOnPort(s: System, net: Network, k: nat, arrivals: seq<Arrival>, key: Key, port: int)
    requires Reachable(s) && TurnsInv(s) && k <= |s.turns| && s.workers != [] && s.received <= arrivals
    requires KnownOnlyOn(arrivals, |s.workers|, s.capacity, net.fdTable, key, port)
    ensures var t := Switch.After(Events(s, net)[..k]); key in t ==> t[key].port == port
  {
    hide Reachable, TurnsInv, WorkerOf, Rank, Switch.After;
    if key in Switch.After(Events(s, net)[..k]) {
      var i, l := EntryInReach(s, net, k, key);
      InReachExtends(s.received, arrivals, |s.workers|, s.capacity, i, l);
      assert Teaches(arrivals, net.fdTable, i, l, key);
    }
  }

  lemma SameRank(a: seq<Arrival>, b: seq<Arrival>, n: nat, j: nat)
    requires n > 0 && a <= b && j < |a|
    ensures Rank(a, n, j) == Rank(b, n, j)
  {
    hide WorkerOf, ForWorker;
    assert a[..j] == b[..j];
  }

  /** Under an unknown descriptor, or one on that port, the packet does not get there if its turn comes late. */
  lemma NotDelivered(
      n: nat, capacity: nat, arrivals: seq<Arrival>, fdTable: map<int, Endpoint>, endpoints: EndpointList,
      i: nat, j: nat, port: int)
    returns (steps: seq<Step>, s: System)
    requires n > 0 && capacity > 0 && InReach(arrivals, n, capacity, i, j)
    requires arrivals[i].fd in fdTable ==> fdTable[arrivals[i].fd].port == port
    ensures Run(Start(n, capacity), steps) == Reached(s) && s.received == arrivals[..j + 1] && s.turns != []
    ensures s.turns[|s.turns| - 1] == Turn(WorkerOf(arrivals[j].packet, n), Rank(arrivals, n, j))
    ensures forall clock: nat -> Times :: Late(clock, |s.turns| - 1) ==>
              !Delivers(s, Network(fdTable, endpoints, clock), |s.turns| - 1, port)
  {
    hide Run, WorkerOf, Rank, Switch.After;
    steps, s := UnderEarlier(n, capacity, arrivals, i, j);
    RunTurnsInv(n, capacity, steps, s);
    var last := |s.turns| - 1;
    forall clock: nat -> Times | Late(clock, last)
      ensures !Delivers(s, Network(fdTable, endpoints, clock), last, port)
    {
      var net := Network(fdTable, endpoints, clock);
      NothingFound(s, net, last);
      var t, e := Switch.After(Events(s, net)[..last]), Events(s, net)[last];
      assert e == EventOf(Handling(arrivals[j].packet, arrivals[i].fd), net, last);
      assert Find(t, Dest(e.packet), e.destTime) == -1;
      NeverToIngress(t, e);
    }
  }

  /**
   * A packet to an address that can be learned on one port only, with somebody there, gets there in every run,
   * exactly if all arrivals in reach of it come in on known descriptors with other ports.
   */
  lemma DeliveredIff(
      n: nat, capacity: nat, arrivals: seq<Arrival>, fdTable: map<int, Endpoint>, endpoints: EndpointList,
      j: nat, port: int)
    requires n > 0 && capacity > 0 && j < |arrivals|
    requires !IsIpv6(arrivals[j].packet) && !IsBroadcast(Dest(arrivals[j].packet).mac)
    requires exists r :: r in Listed(endpoints) && r.port == port
    requires KnownOnlyOn(arrivals, n, capacity, fdTable, Dest(arrivals[j].packet), port)
    ensures (forall clock, steps :: Ticking(clock) ==>
               AlwaysDelivers(n, capacity, arrivals, Network(fdTable, endpoints, clock), j, port, steps))
            <==> ElsewhereInReach(arrivals, n, capacity, fdTable, j, port)
  {
    hide Run, WorkerOf, Rank, KnownOnlyOn, Delivers, IsIpv6, IsBroadcast;
    if ElsewhereInReach(arrivals, n, capacity, fdTable, j, port) {
      forall clock, steps | Ticking(clock)
        ensures AlwaysDelivers(n, capacity, arrivals, Network(fdTable, endpoints, clock), j, port, steps)
      {
        RunDelivers(n, capacity, arrivals, Network(fdTable, endpoints, clock), j, port, steps);
      }
    } else {
      var i: nat :| InReach(arrivals, n, capacity, i, j)
                      && (arrivals[i].fd in fdTable ==> fdTable[arrivals[i].fd].port == port);
      var steps, s := NotDelivered(n, capacity, arrivals, fdTable, endpoints, i, j, port);
      var clock := LateClock(|s.turns| - 1);
      assert Ticking(clock) && Late(clock, |s.turns| - 1);
      assert !AlwaysDelivers(n, capacity, arrivals, Network(fdTable, endpoints, clock), j, port, steps);
    }
  }

  lemma RunDelivers(n: nat, capacity: nat, arrivals: seq<Arrival>, net: Network, j: nat, port: int, steps: seq<Step>)
    requires n > 0 && capacity > 0 && j < |arrivals|
    requires !IsIpv6(arrivals[j].packet) && !IsBroadcast(Dest(arrivals[j].packet).mac)
    requires exists r :: r in Listed(net.endpoints) && r.port == port
    requires KnownOnlyOn(arrivals, n, capacity, net.fdTable, Dest(arrivals[j].packet), port)
    requires ElsewhereInReach(arrivals, n, capacity, net.fdTable, j, port)
    ensures AlwaysDelivers(n, capacity, arrivals, net, j, port, steps)
  {
    hide Run, WorkerOf, Rank, KnownOnlyOn, ElsewhereInReach, Delivers, IsIpv6, IsBroadcast;
    var r := Run(Start(n, capacity), steps);
    if r.Reached? && r.state.received <= arrivals {
      RunTurnsInv(n, capacity, steps, r.state);
      forall k: nat | k < |r.state.turns|
                      && r.state.turns[k] == Turn(WorkerOf(arrivals[j].packet, n), Rank(arrivals, n, j))
        ensures Delivers(r.state, net, k, port)
      {
        DeliveredAt(r.state, net, k, arrivals, j, port);
      }
    }
  }

  // ---- two arrivals

  /** The two arrivals of one worker, the second handled under the first one's descriptor. */
  lemma TwoEvents(n: nat, capacity: nat, a: Arrival, b: Arrival, net: Network) returns (s: System)
    requires n > 0 && capacity > 0 && WorkerOf(a.packet, n) == WorkerOf(b.packet, n)
    ensures Reachable(s) && |s.workers| == n && TurnsInv(s) && s.received == [a, b] && |s.turns| == 2
    ensures Events(s, net) == [EventOf(Handling(a.packet, a.fd), net, 0), EventOf(Handling(b.packet, a.fd), net, 1)]
    ensures s.turns[1].index < |s.workers[s.turns[1].worker].pushed| && ArrivedOn(s, 1) == b.fd
  {
    hide WorkerOf, Reachable, TurnsInv;
    var w;
    s, w := UnderAnotherDescriptor(n, capacity, a, b);
    ReachableTurns(s);
  }

  lemma AfterOne(e: Event, f: Event)
    ensures Switch.After([]) == map[] && Switch.After([e]) == Switched(map[], e)
    ensures Switch.After([e, f]) == Switched(Switched(map[], e), f)
  {
    hide Switched;
    assert [e][..0] == [] && [e, f][..1] == [e];
  }

  /** What one packet can have taught. */
  lemma FirstEvent(e: Event, key: Key)
    ensures key in Switched(map[], e) ==> key == Src(e.packet)
    ensures Unicast(e) ==> Switched(map[], e) == map[Src(e.packet) := Record(Ingress(e), e.insertTime, false)]
  {
  }

  /** A sender can be learned on a port none of its packets came in on. */
  lemma LearnedOnWrongPort(n: nat, capacity: nat, a: Arrival, b: Arrival, net: Network) returns (s: System)
    requires n > 0 && capacity > 0 && WorkerOf(a.packet, n) == WorkerOf(b.packet, n)
    requires a.fd in net.fdTable && b.fd in net.fdTable && net.fdTable[a.fd].port != net.fdTable[b.fd].port
    requires !IsBroadcast(Dest(b.packet).mac) && !IsIpv6(b.packet)
    requires Src(a.packet) != Src(b.packet) && Src(a.packet) != Dest(b.packet)
    ensures Reachable(s) && |s.workers| == n && TurnsInv(s) && s.received == [a, b]
    ensures var t := Switch.After(Events(s, net));
            Src(b.packet) in t && t[Src(b.packet)].port == net.fdTable[a.fd].port
  {
    hide WorkerOf, Reachable, TurnsInv, Switch.After;
    s := TwoEvents(n, capacity, a, b, net);
    var e, f := Events(s, net)[0], Events(s, net)[1];
    AfterOne(e, f);
    FirstEvent(e, Src(b.packet));
    FirstEvent(e, Dest(b.packet));
    assert Learns(Switched(map[], e), f);
  }

  /**
   * And a reply that arrives before its request is handled can get lost: handled under the request's descriptor,
   * its destination, just learned, seems to be on the port it came from. Request and reply always share a worker.
   */
  lemma ReplyIsDropped(n: nat, capacity: nat, request: Arrival, reply: Arrival, net: Network) returns (s: System)
    requires n > 0 && capacity > 0 && Answers(reply.packet, request.packet) && request.fd in net.fdTable
    requires !IsBroadcast(Dest(request.packet).mac) && !IsIpv6(request.packet)
    requires !IsBroadcast(Dest(reply.packet).mac) && !IsIpv6(reply.packet)
    requires net.clock(1).dest - net.clock(0).insert <= ENTRY_TTL
    ensures Reachable(s) && |s.workers| == n && TurnsInv(s) && s.received == [request, reply] && |s.turns| == 2
    ensures Events(s, net)[1].packet == reply.packet
    ensures Recipients(Switch.After(Events(s, net)[..1]), Events(s, net)[1]) == []
  {
    hide WorkerOf, Reachable, TurnsInv, Switch.After;
    AnswersShareWorker(reply.packet, request.packet, n);
    s := TwoEvents(n, capacity, request, reply, net);
    var e, f := Events(s, net)[0], Events(s, net)[1];
    AfterOne(e, f);
    assert Events(s, net)[..1] == [e];
    FirstEvent(e, Dest(reply.packet));
  }
}
