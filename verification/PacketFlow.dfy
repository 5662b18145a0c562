/** Whole runs of the dispatcher with all its workers. */
module PacketFlow {
  import opened RingBuffer
  import opened Dispatch
  import Toeplitz

  /**
   * Every worker's channel, and how many messages a pipe can hold; the dispatcher, and which worker it is
   * serving; all arrivals so far, and whose turn it was each time a packet was handled.
   */
  datatype System = System(
    workers: seq<Channel>, capacity: nat, producer: Producer, serving: nat, received: seq<Arrival>, turns: seq<Turn>)

  /** The packet at an index of what the worker handled. */
  datatype Turn = Turn(worker: nat, index: nat)

  datatype Step = Receive(arrival: Arrival) | Serve | Work(worker: nat)

  /** `dispatch_packet`'s choice */
  function WorkerOf(packet: Packet, n: nat): (w: nat)
    requires n > 0
    ensures w < n
  {
    Toeplitz.Worker(packet.bytes, packet.length, n)
  }

  function IdleChannel(): Channel {
    Channel(seq(RING_BUFFER_SIZE, _ => BLANK), 0, 0, [], Await, [], [], [], 0, [])
  }

  /** `thread_pool_create` */
  function Start(n: nat, capacity: nat): System {
    System(seq(n, _ => IdleChannel()), capacity, Free, 0, [], [])
  }

  predicate Enabled(s: System, step: Step) {
    match step
    case Receive(_) => s.producer == Free && |s.workers| > 0
    case Serve => s.serving < |s.workers| && CanProduce(s.producer, s.workers[s.serving], s.capacity)
    case Work(w) => w < |s.workers| && CanConsume(s.workers[w])
  }

  function Do(s: System, step: Step): System
    requires Enabled(s, step)
  {
    match step
    case Receive(a) =>
      s.(producer := PushLoadHead(a), serving := WorkerOf(a.packet, |s.workers|), received := s.received + [a])
    case Serve =>
      var (p, c) := Produce(s.producer, s.workers[s.serving]);
      s.(producer := p, workers := s.workers[s.serving := c])
    case Work(w) =>
      var c := s.workers[w];
      s.(workers := s.workers[w := Consume(c)],
         turns := if c.at.Handle? then s.turns + [Turn(w, |c.handled|)] else s.turns)
  }

  datatype Outcome = Reached(state: System) | Blocked

  /** The state after these steps, if each of them could be taken. */
  function Run(start: System, steps: seq<Step>): Outcome {
    if steps == [] then Reached(start)
    else
      match Run(start, steps[..|steps| - 1])
      case Blocked => Blocked
      case Reached(s) =>
        var step := steps[|steps| - 1];
        if Enabled(s, step) then Reached(Do(s, step)) else Blocked
  }

  // ---- what every reachable state satisfies

  /** The dispatcher, as far as worker w is concerned. */
  function ProducerFor(s: System, w: nat): Producer {
    if w == s.serving then s.producer else Free
  }

  /** The arrivals that belong to worker w, in order. */
  function ForWorker(arrivals: seq<Arrival>, w: nat, n: nat): seq<Arrival>
    requires n > 0
  {
    if arrivals == [] then []
    else
      var a := arrivals[|arrivals| - 1];
      ForWorker(arrivals[..|arrivals| - 1], w, n) + (if WorkerOf(a.packet, n) == w then [a] else [])
  }

  /** What the dispatcher has received and not yet pushed. */
  function Pending(p: Producer): seq<Arrival> {
    if p == Free || p.Notify? then [] else [p.arrival]
  }

  ghost predicate WorkerInv(s: System, w: nat)
    requires w < |s.workers|
  {
    Inv(ProducerFor(s, w), s.workers[w], s.capacity)
    && ForWorker(s.received, w, |s.workers|) == s.workers[w].pushed + Pending(ProducerFor(s, w))
  }

  ghost predicate SystemInv(s: System) {
    s.serving < |s.workers| && forall w :: 0 <= w < |s.workers| ==> WorkerInv(s, w)
  }

  lemma StartKeeps(n: nat, capacity: nat)
    requires n > 0
    ensures SystemInv(Start(n, capacity))
  {
    assert Inv(Free, IdleChannel(), capacity);
  }

  lemma ReceiveKeeps(s: System, a: Arrival)
    requires SystemInv(s) && Enabled(s, Receive(a))
    ensures SystemInv(Do(s, Receive(a)))
  {
    hide Inv;
    var s' := Do(s, Receive(a));
    assert s'.received[..|s'.received| - 1] == s.received;
    forall w | 0 <= w < |s.workers|
      ensures WorkerInv(s', w)
    {
      assert WorkerInv(s, w);
      AcceptKeeps(a, s.workers[w], s.capacity);
    }
  }

  lemma ServeKeeps(s: System)
    requires SystemInv(s) && Enabled(s, Serve)
    ensures SystemInv(Do(s, Serve))
  {
    hide Inv, ForWorker;
    var s' := Do(s, Serve);
    assert WorkerInv(s, s.serving);
    ProduceKeeps(s.producer, s.workers[s.serving], s.capacity);
    forall w | 0 <= w < |s.workers|
      ensures WorkerInv(s', w)
    {
      assert WorkerInv(s, w);
    }
  }

  lemma WorkKeeps(s: System, i: nat)
    requires SystemInv(s) && Enabled(s, Work(i))
    ensures SystemInv(Do(s, Work(i)))
  {
    hide Inv, ForWorker;
    var s' := Do(s, Work(i));
    assert WorkerInv(s, i);
    ConsumeKeeps(ProducerFor(s, i), s.workers[i], s.capacity);
    forall w | 0 <= w < |s.workers|
      ensures WorkerInv(s', w)
    {
      assert WorkerInv(s, w);
    }
  }

  lemma {:induction false} RunKeeps(start: System, steps: seq<Step>)
    requires SystemInv(start) && Run(start, steps).Reached?
    ensures SystemInv(Run(start, steps).state)
    ensures Run(start, steps).state.capacity == start.capacity && |Run(start, steps).state.workers| == |start.workers|
    decreases |steps|
  {
    hide SystemInv;
    if steps != [] {
      var before, step := steps[..|steps| - 1], steps[|steps| - 1];
      RunKeeps(start, before);
      match step {
        case Receive(a) => ReceiveKeeps(Run(start, before).state, a);
        case Serve => ServeKeeps(Run(start, before).state);
        case Work(w) => WorkKeeps(Run(start, before).state, w);
      }
    }
  }

  /** Every state of every interleaving. */
  ghost predicate Reachable(s: System) {
    exists n: nat, capacity: nat, steps :: n > 0 && capacity > 0 && Run(Start(n, capacity), steps) == Reached(s)
  }

  lemma ReachableInv(s: System)
    requires Reachable(s)
    ensures SystemInv(s) && s.capacity > 0
  {
    hide SystemInv;
    var n: nat, capacity: nat, steps :| n > 0 && capacity > 0 && Run(Start(n, capacity), steps) == Reached(s);
    StartKeeps(n, capacity);
    RunKeeps(Start(n, capacity), steps);
  }

  // ---- the ring

  function Packets(arrivals: seq<Arrival>): (ps: seq<Packet>)
    ensures |ps| == |arrivals|
  {
    seq(|arrivals|, i requires 0 <= i < |arrivals| => arrivals[i].packet)
  }

  /**
   * At every point of every interleaving the ring is a queue of at most 1023 packets: what was popped, followed
   * by the slots from tail to head, is what was pushed; and a push can fail only when 1023 packets are waiting.
   */
  lemma RingRefinesQueue(s: System, w: nat)
    requires Reachable(s) && w < |s.workers|
    ensures var c := s.workers[w];
            c.popped + Waiting(c) == Packets(c.pushed) && |Waiting(c)| < RING_BUFFER_SIZE
            && (Next(c.head) == c.tail <==> !HasRoom(Waiting(c)))
  {
    hide Reachable, ForWorker, RingInv, MessageInv, WakeInv, HandledInv, ConsumerInv, ProducerInv, Waiting, Next;
    ReachableInv(s);
    assert WorkerInv(s, w);
    WaitingIsShort(s.workers[w]);
    RingIsQueue(s.workers[w]);
  }

  lemma WaitingIsShort(c: Channel)
    ensures |Waiting(c)| < RING_BUFFER_SIZE
  {
    hide FromTail;
  }

  // ---- order within a flow

  /** Packets too short for a header go to worker 0, whatever their buffers hold. */
  datatype Flow = Short | Between(src: seq<bv8>, dest: seq<bv8>)

  function FlowOf(p: Packet): Flow {
    if p.length < Toeplitz.HEADER_SIZE then Short else Between(p.bytes[6..12], p.bytes[..6])
  }

  function WorkerOfFlow(f: Flow, n: nat): nat
    requires n > 0
  {
    match f
    case Short => 0
    case Between(src, dest) => Toeplitz.Hash(Toeplitz.KEY, src + dest) as nat % n
  }

  /** One flow, one worker. */
  lemma FlowAffinity(p: Packet, n: nat)
    requires n > 0
    ensures WorkerOf(p, n) == WorkerOfFlow(FlowOf(p), n)
  {
  }

  /** The packets of a flow, in order. */
  function OfFlow(packets: seq<Packet>, f: Flow): seq<Packet> {
    if packets == [] then []
    else
      var p := packets[|packets| - 1];
      OfFlow(packets[..|packets| - 1], f) + (if FlowOf(p) == f then [p] else [])
  }

  lemma {:induction false} FlowOfPrefix(a: seq<Packet>, b: seq<Packet>, f: Flow)
    requires a <= b
    ensures OfFlow(a, f) <= OfFlow(b, f)
    decreases |b|
  {
    hide FlowOf;
    if |a| < |b| {
      FlowOfPrefix(a, b[..|b| - 1], f);
    } else {
      assert a == b;
    }
  }

  lemma OneMorePacket(packets: seq<Packet>, p: Packet, f: Flow)
    ensures OfFlow(packets + [p], f) == OfFlow(packets, f) + (if FlowOf(p) == f then [p] else [])
  {
    hide FlowOf;
    assert (packets + [p])[..|packets|] == packets;
  }

  lemma OneMoreArrival(arrivals: seq<Arrival>, a: Arrival)
    ensures Packets(arrivals + [a]) == Packets(arrivals) + [a.packet]
  {
  }

  /** The worker of a flow gets all of it, and the other workers nothing. */
  lemma {:induction false} FlowOfWorker(arrivals: seq<Arrival>, w: nat, n: nat, f: Flow)
    requires n > 0
    ensures OfFlow(Packets(ForWorker(arrivals, w, n)), f)
         == if w == WorkerOfFlow(f, n) then OfFlow(Packets(arrivals), f) else []
    decreases |arrivals|
  {
    hide FlowOf, WorkerOfFlow, WorkerOf, Packets, OfFlow;
    if arrivals == [] {
      NoPackets(f);
    } else {
      var before, a := arrivals[..|arrivals| - 1], arrivals[|arrivals| - 1];
      assert arrivals == before + [a];
      FlowOfWorker(before, w, n, f);
      FlowAffinity(a.packet, n);
      OneMoreArrival(before, a);
      OneMorePacket(Packets(before), a.packet, f);
      var mine := ForWorker(before, w, n);
      OneMoreArrival(mine, a);
      OneMorePacket(Packets(mine), a.packet, f);
      assert mine + [] == mine;
    }
  }

  lemma NoPackets(f: Flow)
    ensures Packets([]) == [] && OfFlow([], f) == []
  {
  }

  /** What a worker popped is a beginning of what was received for it, and what it handled a beginning of that. */
  lemma PoppedInOrder(s: System, w: nat)
    requires SystemInv(s) && w < |s.workers|
    ensures s.workers[w].popped <= Packets(ForWorker(s.received, w, |s.workers|))
    ensures HandledPackets(s.workers[w].handled) <= s.workers[w].popped
  {
    hide ForWorker, MessageInv, WakeInv, ConsumerInv, ProducerInv;
    assert WorkerInv(s, w);
  }

  function HandledPackets(handled: seq<Handling>): (ps: seq<Packet>)
    ensures |ps| == |handled|
  {
    seq(|handled|, i requires 0 <= i < |handled| => handled[i].packet)
  }

  /**
   * Per-flow order, over every interleaving: what any worker handled, and popped, of a flow is a beginning of
   * what was received of it, in the same order and without duplicates; and only one worker gets any of it.
   */
  lemma PerFlowOrder(s: System, w: nat, f: Flow)
    requires Reachable(s) && w < |s.workers|
    ensures OfFlow(HandledPackets(s.workers[w].handled), f) <= OfFlow(s.workers[w].popped, f)
    ensures OfFlow(s.workers[w].popped, f) <= OfFlow(Packets(s.received), f)
    ensures w != WorkerOfFlow(f, |s.workers|) ==> OfFlow(s.workers[w].popped, f) == []
  {
    hide OfFlow, ForWorker, WorkerOfFlow, SystemInv, Reachable;
    ReachableInv(s);
    PoppedInOrder(s, w);
    FlowOfPrefix(HandledPackets(s.workers[w].handled), s.workers[w].popped, f);
    FlowOfPrefix(s.workers[w].popped, Packets(ForWorker(s.received, w, |s.workers|)), f);
    FlowOfWorker(s.received, w, |s.workers|, f);
  }

  // ---- wake-ups and progress

  /** A worker about to wait, with nothing on its way, has handled everything received for it. */
  lemma WaitingMeansDone(s: System, w: nat)
    requires Reachable(s) && w < |s.workers| && s.workers[w].at.Await? && s.workers[w].pipe == []
    requires w == s.serving ==> s.producer == Free
    ensures HandledPackets(s.workers[w].handled) == Packets(ForWorker(s.received, w, |s.workers|))
  {
    hide ForWorker, Reachable, ProducerInv;
    ReachableInv(s);
    PoppedInOrder(s, w);
    assert WorkerInv(s, w);
    NoLostWakeUp(Free, s.workers[w], s.capacity);
  }

  /** The dispatcher has something to do and cannot get on with it until its worker has taken steps. */
  predicate Stalled(s: System)
    requires s.serving < |s.workers|
  {
    var c := s.workers[s.serving];
    (s.producer.PushLoadTail? && Next(s.producer.head) == c.tail)
    || (s.producer.Notify? && !CanProduce(s.producer, c, s.capacity))
  }

  /** If nothing but the arrival of a packet can happen, everything received has been handled. */
  lemma AtRest(s: System)
    requires Reachable(s) && s.serving < |s.workers|
    requires forall w :: 0 <= w < |s.workers| ==> !Enabled(s, Work(w))
    requires !Enabled(s, Serve) || Stalled(s)
    ensures s.producer == Free
    ensures forall w :: 0 <= w < |s.workers| ==>
              HandledPackets(s.workers[w].handled) == Packets(ForWorker(s.received, w, |s.workers|))
  {
    hide Reachable, Inv, ForWorker, HandledPackets, Packets;
    ReachableInv(s);
    assert !Enabled(s, Work(s.serving));
    if Stalled(s) {
      assert WorkerInv(s, s.serving);
      NoDeadlock(s.producer, s.workers[s.serving], s.capacity);
    }
    assert s.producer == Free;
    forall w | 0 <= w < |s.workers|
      ensures HandledPackets(s.workers[w].handled) == Packets(ForWorker(s.received, w, |s.workers|))
    {
      assert !Enabled(s, Work(w));
      WaitingMeansDone(s, w);
    }
  }

  /** The steps all workers together have left if nothing more is received. */
  ghost function AllLeft(s: System, n: nat): int
    requires n <= |s.workers|
  {
    if n == 0 then 0 else AllLeft(s, n - 1) + Left(ProducerFor(s, n - 1), s.workers[n - 1])
  }

  lemma {:induction false} AllLeftChanges(s: System, t: System, w: nat, n: nat)
    requires n <= |s.workers| == |t.workers| && w < |s.workers|
    requires forall v :: 0 <= v < |s.workers| && v != w ==>
               s.workers[v] == t.workers[v] && ProducerFor(s, v) == ProducerFor(t, v)
    ensures AllLeft(t, n) - AllLeft(s, n)
         == if w < n then Left(ProducerFor(t, w), t.workers[w]) - Left(ProducerFor(s, w), s.workers[w]) else 0
  {
    hide Left;
    if n > 0 {
      AllLeftChanges(s, t, w, n - 1);
    }
  }

  lemma {:induction false} AllLeftIsNatural(s: System, n: nat)
    requires SystemInv(s) && n <= |s.workers|
    ensures AllLeft(s, n) >= 0
  {
    hide Left, Inv;
    if n > 0 {
      AllLeftIsNatural(s, n - 1);
      assert WorkerInv(s, n - 1);
      LeftIsNatural(ProducerFor(s, n - 1), s.workers[n - 1], s.capacity);
    }
  }

  function WorkSteps(steps: seq<Step>): nat {
    if steps == [] then 0 else WorkSteps(steps[..|steps| - 1]) + (if steps[|steps| - 1].Work? then 1 else 0)
  }

  /** Without new arrivals the workers take boundedly many steps, however long the dispatcher spins. */
  lemma {:induction false} BoundedWork(start: System, steps: seq<Step>)
    requires SystemInv(start) && Run(start, steps).Reached? && forall step :: step in steps ==> !step.Receive?
    ensures var end := Run(start, steps).state;
            SystemInv(end) && |end.workers| == |start.workers|
            && 0 <= AllLeft(end, |end.workers|)
            && WorkSteps(steps) + AllLeft(end, |end.workers|) <= AllLeft(start, |start.workers|)
    decreases |steps|
  {
    hide SystemInv, Left, AllLeft, Produce, Consume, CanProduce, CanConsume;
    RunKeeps(start, steps);
    AllLeftIsNatural(Run(start, steps).state, |start.workers|);
    if steps != [] {
      var before, step := steps[..|steps| - 1], steps[|steps| - 1];
      BoundedWork(start, before);
      var s := Run(start, before).state;
      assert step in steps;
      match step {
        case Serve =>
          ProduceMakesProgress(s.producer, s.workers[s.serving], s.capacity);
          AllLeftChanges(s, Do(s, step), s.serving, |s.workers|);
        case Work(w) =>
          ConsumeMakesProgress(ProducerFor(s, w), s.workers[w]);
          AllLeftChanges(s, Do(s, step), w, |s.workers|);
      }
    }
  }

  // ---- turns

  /** How many packets the worker handled in these turns. */
  function TurnsOf(turns: seq<Turn>, w: nat): nat {
    if turns == [] then 0
    else TurnsOf(turns[..|turns| - 1], w) + (if turns[|turns| - 1].worker == w then 1 else 0)
  }

  /** Every packet handled has had its turn, in its worker's order. */
  ghost predicate TurnsInv(s: System) {
    (forall w :: 0 <= w < |s.workers| ==> TurnsOf(s.turns, w) == |s.workers[w].handled|)
    && forall k :: 0 <= k < |s.turns| ==>
         s.turns[k].worker < |s.workers| && s.turns[k].index == TurnsOf(s.turns[..k], s.turns[k].worker)
         && s.turns[k].index < |s.workers[s.turns[k].worker].handled|
  }

  lemma TurnsKeep(s: System, step: Step)
    requires TurnsInv(s) && Enabled(s, step)
    ensures TurnsInv(Do(s, step))
  {
    hide TurnsOf, Produce, Consume;
    var t := Do(s, step);
    HandledGrows(s, step);
    if t.turns != s.turns {
      var turn := Turn(step.worker, |s.workers[step.worker].handled|);
      forall w
        ensures TurnsOf(t.turns, w) == TurnsOf(s.turns, w) + (if w == turn.worker then 1 else 0)
      {
        OneMoreTurn(s.turns, turn, w);
      }
      forall k | 0 <= k < |t.turns|
        ensures t.turns[..k] == s.turns[..k]
      {
      }
      assert s.turns[..|s.turns|] == s.turns;
    }
  }

  lemma OneMoreTurn(turns: seq<Turn>, turn: Turn, w: nat)
    ensures TurnsOf(turns + [turn], w) == TurnsOf(turns, w) + (if w == turn.worker then 1 else 0)
  {
    assert (turns + [turn])[..|turns|] == turns;
  }

  /** A step adds at most one packet to what is handled, and then a turn. */
  lemma HandledGrows(s: System, step: Step)
    requires Enabled(s, step)
    ensures var t := Do(s, step);
            |t.workers| == |s.workers|
            && (t.turns == s.turns ==>
                  forall w :: 0 <= w < |s.workers| ==> |t.workers[w].handled| == |s.workers[w].handled|)
            && (t.turns != s.turns ==>
                  step.Work? && t.turns == s.turns + [Turn(step.worker, |s.workers[step.worker].handled|)]
                  && forall w :: 0 <= w < |s.workers| ==>
                       |t.workers[w].handled| == |s.workers[w].handled| + (if w == step.worker then 1 else 0))
  {
  }

  lemma {:induction false} RunTurns(start: System, steps: seq<Step>)
    requires TurnsInv(start) && Run(start, steps).Reached?
    ensures TurnsInv(Run(start, steps).state)
    decreases |steps|
  {
    hide TurnsInv;
    if steps != [] {
      var before := steps[..|steps| - 1];
      RunTurns(start, before);
      TurnsKeep(Run(start, before).state, steps[|steps| - 1]);
    }
  }

  lemma ReachableTurns(s: System)
    requires Reachable(s)
    ensures TurnsInv(s)
  {
    hide TurnsInv;
    var n: nat, capacity: nat, steps :| n > 0 && capacity > 0 && Run(Start(n, capacity), steps) == Reached(s);
    NoTurns(n, capacity);
    RunTurns(Start(n, capacity), steps);
  }

  lemma NoTurns(n: nat, capacity: nat)
    ensures TurnsInv(Start(n, capacity))
  {
  }
}
