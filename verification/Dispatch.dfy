/**
 * One dispatcher and its workers, as a state machine with one transition for every atomic access to a
 * ring, every message written to a pipe and every message read from it.
 */
module Dispatch {
  import opened RingBuffer
  import Toeplitz

  /** A packet buffer always has room for an Ethernet header; `length` is what was received into it. */
  datatype Frame = Frame(bytes: seq<bv8>, length: nat)
  type Packet = p: Frame | |p.bytes| >= Toeplitz.HEADER_SIZE
    witness Frame([0, 0, 0, 0, 0, 0, 0, 0, 0, 0, 0, 0, 0, 0], 0)
  const BLANK: Packet := Frame([0, 0, 0, 0, 0, 0, 0, 0, 0, 0, 0, 0, 0, 0], 0)

  type Slots = s: seq<Packet> | |s| == RING_BUFFER_SIZE witness seq(RING_BUFFER_SIZE, _ => BLANK)
  type Index = i: nat | i < RING_BUFFER_SIZE

  /** A packet and the descriptor it came in on. */
  datatype Arrival = Arrival(packet: Packet, fd: int)

  /** Where the dispatcher is: idle, inside `ring_buffer_push`, or about to write the message. */
  datatype Producer =
    | Free
    | PushLoadHead(arrival: Arrival)
    | PushLoadTail(arrival: Arrival, head: Index)
    | PushStoreData(arrival: Arrival, head: Index)
    | PushStoreHead(arrival: Arrival, head: Index)
    | Notify(fd: int)

  /** Where a worker is: reading its pipe, inside `ring_buffer_pop`, or handling a packet. */
  datatype Consumer =
    | Await
    | PopLoadTail(fd: int)
    | PopLoadHead(fd: int, tail: Index)
    | PopLoadData(fd: int, tail: Index)
    | PopStoreTail(fd: int, tail: Index, packet: Packet)
    | Handle(fd: int, packet: Packet)

  /** A packet with the descriptor it was handled under. */
  datatype Handling = Handling(packet: Packet, fd: int)

  /**
   * A worker with its ring and pipe, and what happened so far: the arrivals pushed, the packets popped,
   * for each popped packet the number of the message being handled, the messages read, and the packets handled.
   */
  datatype Channel = Channel(
    data: Slots, head: Index, tail: Index, pipe: seq<int>, at: Consumer,
    pushed: seq<Arrival>, popped: seq<Packet>, took: seq<nat>, read: nat, handled: seq<Handling>)

  function Next(i: Index): Index {
    (i + 1) % RING_BUFFER_SIZE
  }

  // ---- one step of the dispatcher on the channel it serves

  predicate CanProduce(p: Producer, c: Channel, capacity: nat) {
    p != Free && (p.Notify? ==> |c.pipe| < capacity)
  }

  function Produce(p: Producer, c: Channel): (Producer, Channel)
    requires p != Free
  {
    match p
    case PushLoadHead(a) => (PushLoadTail(a, c.head), c)
    case PushLoadTail(a, head) => if Next(head) == c.tail then (PushLoadHead(a), c) else (PushStoreData(a, head), c)
    case PushStoreData(a, head) => (PushStoreHead(a, head), c.(data := c.data[head := a.packet]))
    case PushStoreHead(a, head) => (Notify(a.fd), c.(head := Next(head), pushed := c.pushed + [a]))
    case Notify(fd) => (Free, c.(pipe := c.pipe + [fd]))
  }

  // ---- one step of a worker

  predicate CanConsume(c: Channel) {
    c.at.Await? ==> c.pipe != []
  }

  function Consume(c: Channel): Channel
    requires CanConsume(c)
  {
    match c.at
    case Await => c.(pipe := c.pipe[1..], at := PopLoadTail(c.pipe[0]), read := c.read + 1)
    case PopLoadTail(fd) => c.(at := PopLoadHead(fd, c.tail))
    case PopLoadHead(fd, tail) => c.(at := if tail == c.head then Await else PopLoadData(fd, tail))
    case PopLoadData(fd, tail) => c.(at := PopStoreTail(fd, tail, c.data[tail]))
    case PopStoreTail(fd, tail, packet) =>
      c.(tail := Next(tail), at := Handle(fd, packet), popped := c.popped + [packet], took := c.took + [c.read])
    case Handle(fd, packet) => c.(at := PopLoadTail(fd), handled := c.handled + [Handling(packet, fd)])
  }

  // ---- what every step keeps

  /** The ring is a bounded queue: the slots from tail to head hold the arrivals pushed and not yet popped. */
  ghost predicate RingInv(c: Channel) {
    var p, q := |c.pushed|, |c.popped|;
    q <= p < q + RING_BUFFER_SIZE && c.head == p % RING_BUFFER_SIZE && c.tail == q % RING_BUFFER_SIZE
    && (forall i :: q <= i < p ==> c.data[i % RING_BUFFER_SIZE] == c.pushed[i].packet)
    && (forall i :: 0 <= i < q ==> c.popped[i] == c.pushed[i].packet)
  }

  ghost predicate ProducerInv(p: Producer, c: Channel) {
    match p
    case PushLoadTail(_, head) => head == c.head
    case PushStoreData(_, head) => head == c.head && |c.pushed| - |c.popped| < RING_BUFFER_SIZE - 1
    case PushStoreHead(a, head) =>
      head == c.head && |c.pushed| - |c.popped| < RING_BUFFER_SIZE - 1 && c.data[head] == a.packet
    case _ => true
  }

  ghost predicate ConsumerInv(c: Channel) {
    match c.at
    case PopLoadHead(_, tail) => tail == c.tail
    case PopLoadData(_, tail) => tail == c.tail && |c.popped| < |c.pushed|
    case PopStoreTail(_, tail, packet) =>
      tail == c.tail && |c.popped| < |c.pushed| && packet == c.pushed[|c.popped|].packet
    case Handle(_, packet) => c.popped != [] && packet == c.popped[|c.popped| - 1]
    case _ => true
  }

  /** Message k carries the descriptor of the k-th arrival, and is written right after its push. */
  ghost predicate MessageInv(p: Producer, c: Channel, capacity: nat) {
    |c.pipe| <= capacity
    && |c.pushed| == c.read + |c.pipe| + (if p.Notify? then 1 else 0)
    && (forall i :: 0 <= i < |c.pipe| ==> c.pipe[i] == c.pushed[c.read + i].fd)
    && (p.Notify? ==> p.fd == c.pushed[|c.pushed| - 1].fd)
    && (!c.at.Await? ==> c.read > 0 && c.at.fd == c.pushed[c.read - 1].fd)
  }

  /**
   * The k-th packet popped is not older than the message being handled then: message k or an earlier one.
   * A worker that waits has popped as many packets as it has read messages.
   */
  ghost predicate WakeInv(c: Channel) {
    |c.took| == |c.popped|
    && |c.popped| >= (if c.at.Await? then c.read else c.read - 1)
    && (forall i :: 0 <= i < |c.took| ==> 0 < c.took[i] <= i + 1 && c.took[i] <= c.read)
    && (forall i, j :: 0 <= i < j < |c.took| ==> c.took[i] <= c.took[j])
  }

  /** Nor is it much younger: no more messages than the pipe holds, and the one not yet written, can be behind. */
  ghost predicate ReachInv(c: Channel, capacity: nat) {
    forall i :: 0 <= i < |c.took| ==> i <= c.took[i] + capacity
  }

  /** Packets are handled in the order they were popped, each under the descriptor of its message. */
  ghost predicate HandledInv(c: Channel) {
    |c.took| == |c.popped| == |c.handled| + (if c.at.Handle? then 1 else 0) && |c.popped| <= |c.pushed|
    && (forall i :: 0 <= i < |c.took| ==> 0 < c.took[i] <= |c.pushed|)
    && (forall i :: 0 <= i < |c.handled| ==> c.handled[i] == Handling(c.popped[i], c.pushed[c.took[i] - 1].fd))
    && (c.at.Handle? ==> c.took[|c.handled|] == c.read)
  }

  ghost predicate Inv(p: Producer, c: Channel, capacity: nat) {
    RingInv(c) && ProducerInv(p, c) && ConsumerInv(c) && MessageInv(p, c, capacity) && WakeInv(c) && HandledInv(c)
    && ReachInv(c, capacity)
  }

  lemma SlotsDiffer(i: nat, j: nat)
    requires i < j < i + RING_BUFFER_SIZE
    ensures i % RING_BUFFER_SIZE != j % RING_BUFFER_SIZE
  {
  }

  lemma NextIndex(n: nat)
    ensures Next(n % RING_BUFFER_SIZE) == (n + 1) % RING_BUFFER_SIZE
  {
  }

  /** A store to the slot at head leaves what is waiting, and a head moved on makes it one more. */
  lemma StoreKeepsRing(c: Channel, packet: Packet)
    requires RingInv(c) && |c.pushed| - |c.popped| < RING_BUFFER_SIZE - 1
    ensures RingInv(c.(data := c.data[c.head := packet]))
  {
    forall i | |c.popped| <= i < |c.pushed|
      ensures i % RING_BUFFER_SIZE != c.head
    {
      SlotsDiffer(i, |c.pushed|);
    }
  }

  lemma MoveKeepsRing(c: Channel, a: Arrival)
    requires RingInv(c) && |c.pushed| - |c.popped| < RING_BUFFER_SIZE - 1 && c.data[c.head] == a.packet
    ensures RingInv(c.(head := Next(c.head), pushed := c.pushed + [a]))
  {
    NextIndex(|c.pushed|);
  }

  lemma PipeKeepsRing(c: Channel, pipe: seq<int>)
    requires RingInv(c)
    ensures RingInv(c.(pipe := pipe))
  {
  }

  /** The push sees a free slot exactly if there is one. */
  lemma FullRing(c: Channel)
    requires RingInv(c)
    ensures Next(c.head) != c.tail ==> |c.pushed| - |c.popped| < RING_BUFFER_SIZE - 1
  {
    NextIndex(|c.pushed|);
  }

  lemma ProduceKeepsRing(p: Producer, c: Channel)
    requires p != Free && RingInv(c) && ProducerInv(p, c) && ConsumerInv(c)
    ensures var (p', c') := Produce(p, c); RingInv(c') && ProducerInv(p', c') && ConsumerInv(c')
  {
    hide RingInv, Next;
    FullRing(c);
    match p {
      case PushStoreData(a, _) => StoreKeepsRing(c, a.packet);
      case PushStoreHead(a, _) => MoveKeepsRing(c, a);
      case Notify(fd) => PipeKeepsRing(c, c.pipe + [fd]);
      case _ =>
    }
  }

  lemma ConsumeKeepsRing(p: Producer, c: Channel)
    requires CanConsume(c) && RingInv(c) && ProducerInv(p, c) && ConsumerInv(c)
    ensures RingInv(Consume(c)) && ProducerInv(p, Consume(c)) && ConsumerInv(Consume(c))
  {
    match c.at {
      case PopStoreTail(_, _, _) => NextIndex(|c.popped|);
      case PopLoadHead(_, _) =>
      case _ =>
    }
  }

  lemma EmptyRing(c: Channel)
    requires RingInv(c)
    ensures c.tail == c.head <==> |c.popped| == |c.pushed|
  {
  }

  lemma ProduceKeepsMessages(p: Producer, c: Channel, capacity: nat)
    requires CanProduce(p, c, capacity) && MessageInv(p, c, capacity)
    ensures var (p', c') := Produce(p, c); MessageInv(p', c', capacity)
  {
    var (p', c') := Produce(p, c);
    match p {
      case Notify(fd) =>
        assert c'.pipe[|c.pipe|] == fd == c.pushed[|c.pushed| - 1].fd;
      case _ =>
    }
  }

  lemma ConsumeKeepsMessages(p: Producer, c: Channel, capacity: nat)
    requires CanConsume(c) && MessageInv(p, c, capacity)
    ensures MessageInv(p, Consume(c), capacity)
  {
    if c.at.Await? {
      assert c.pipe[0] == c.pushed[c.read + 0].fd;
      forall i | 0 <= i < |c.pipe| - 1
        ensures c.pipe[1..][i] == c.pushed[c.read + 1 + i].fd
      {
        assert c.pipe[1 + i] == c.pushed[c.read + (1 + i)].fd;
      }
    }
  }

  lemma ConsumeKeepsWake(c: Channel)
    requires CanConsume(c) && WakeInv(c) && c.read <= |c.pushed|
    requires c.tail == c.head <==> |c.popped| == |c.pushed|
    requires (c.at.PopLoadHead? ==> c.at.tail == c.tail) && (!c.at.Await? ==> c.read > 0)
    ensures WakeInv(Consume(c))
  {
  }

  lemma ProduceKeepsReach(p: Producer, c: Channel, capacity: nat)
    requires p != Free && ReachInv(c, capacity)
    ensures ReachInv(Produce(p, c).1, capacity)
  {
  }

  lemma ConsumeKeepsReach(p: Producer, c: Channel, capacity: nat)
    requires CanConsume(c) && MessageInv(p, c, capacity) && ReachInv(c, capacity) && WakeInv(c)
    requires c.at.PopStoreTail? ==> |c.popped| < |c.pushed|
    ensures ReachInv(Consume(c), capacity)
  {
  }

  lemma ProduceKeepsHandled(p: Producer, c: Channel)
    requires p != Free && HandledInv(c)
    ensures HandledInv(Produce(p, c).1)
  {
  }

  lemma ConsumeKeepsHandled(c: Channel)
    requires CanConsume(c) && HandledInv(c) && ConsumerInv(c)
    requires !c.at.Await? ==> 0 < c.read <= |c.pushed| && c.at.fd == c.pushed[c.read - 1].fd
    ensures HandledInv(Consume(c))
  {
  }

  lemma ProduceKeeps(p: Producer, c: Channel, capacity: nat)
    requires CanProduce(p, c, capacity) && Inv(p, c, capacity)
    ensures var (p', c') := Produce(p, c); Inv(p', c', capacity)
  {
    hide RingInv, ProducerInv, ConsumerInv, MessageInv, HandledInv, ReachInv;
    ProduceKeepsReach(p, c, capacity);
    ProduceKeepsRing(p, c);
    ProduceKeepsMessages(p, c, capacity);
    ProduceKeepsHandled(p, c);
  }

  lemma ConsumeKeeps(p: Producer, c: Channel, capacity: nat)
    requires CanConsume(c) && Inv(p, c, capacity)
    ensures Inv(p, Consume(c), capacity)
  {
    hide RingInv, ProducerInv, WakeInv, HandledInv, ReachInv, Consume;
    EmptyRing(c);
    ConsumeKeepsRing(p, c);
    ConsumeKeepsMessages(p, c, capacity);
    ConsumeKeepsWake(c);
    ConsumeKeepsHandled(c);
    ConsumeKeepsReach(p, c, capacity);
  }

  lemma AcceptKeeps(a: Arrival, c: Channel, capacity: nat)
    requires Inv(Free, c, capacity)
    ensures Inv(PushLoadHead(a), c, capacity)
  {
    hide RingInv, WakeInv, HandledInv;
  }

  /** No lost wake-up: a worker that waits with no message on its way has an empty ring. */
  lemma NoLostWakeUp(p: Producer, c: Channel, capacity: nat)
    requires Inv(p, c, capacity) && c.at.Await? && c.pipe == [] && !p.Notify?
    ensures |c.popped| == |c.pushed| && c.head == c.tail
  {
    EmptyRing(c);
  }

  /** No deadlock: whenever a push fails, or a message cannot be written, the worker can take a step. */
  lemma NoDeadlock(p: Producer, c: Channel, capacity: nat)
    requires Inv(p, c, capacity) && capacity > 0
    requires (p.PushLoadTail? && Next(p.head) == c.tail) || (p.Notify? && !CanProduce(p, c, capacity))
    ensures CanConsume(c)
  {
    if p.PushLoadTail? && c.at.Await? && c.pipe == [] {
      NoLostWakeUp(p, c, capacity);
    }
  }

  // ---- progress

  /** An upper bound on the steps the worker has left if nothing more is received. */
  ghost function Left(p: Producer, c: Channel): int {
    5 * (|c.pushed| - |c.popped|) + 3 * |c.pipe|
    + (match c.at
       case Await => 1
       case PopLoadTail(_) => 3
       case PopLoadHead(_, _) => 2
       case PopLoadData(_, _) => 1
       case PopStoreTail(_, _, _) => 0
       case Handle(_, _) => 4)
    + (match p
       case Free => 0
       case Notify(_) => 4
       case PushStoreHead(_, _) => 10
       case PushStoreData(_, _) => 11
       case PushLoadTail(_, _) => 12
       case PushLoadHead(_) => 12)
  }

  lemma ConsumeMakesProgress(p: Producer, c: Channel)
    requires CanConsume(c)
    ensures Left(p, Consume(c)) < Left(p, c)
  {
  }

  lemma ProduceMakesProgress(p: Producer, c: Channel, capacity: nat)
    requires CanProduce(p, c, capacity)
    ensures var (p', c') := Produce(p, c);
            if p.PushLoadHead? || (p.PushLoadTail? && Next(p.head) == c.tail) then Left(p', c') == Left(p, c)
            else Left(p', c') < Left(p, c)
  {
  }

  lemma LeftIsNatural(p: Producer, c: Channel, capacity: nat)
    requires Inv(p, c, capacity)
    ensures Left(p, c) >= 0
  {
  }

  // ---- the ring, taken one operation at a time

  /** The packets waiting in the ring. */
  function Waiting(c: Channel): seq<Packet> {
    FromTail(c.data, c.tail, c.head)
  }

  /** The four accesses of a push, with nothing between them, are what `Ring.Push` does; two are a failed push. */
  lemma PushAlone(a: Arrival, c: Channel)
    ensures var (p1, c1) := Produce(PushLoadHead(a), c);
            var (p2, c2) := Produce(p1, c1);
            if HasRoom(Waiting(c)) then
              var (p3, c3) := Produce(p2, c2);
              var (p4, c4) := Produce(p3, c3);
              p4 == Notify(a.fd) && Waiting(c4) == Waiting(c) + [a.packet]
            else p2 == PushLoadHead(a) && c2 == c
  {
    hide FromTail;
    AfterPush(c.data, c.tail, c.head, a.packet);
  }

  /** The four accesses of a pop are what `Ring.Pop` does; two of them find the ring empty. */
  lemma PopAlone(fd: int, c: Channel)
    requires c.at == PopLoadTail(fd)
    ensures var c2 := Consume(Consume(c));
            if Waiting(c) != [] then
              var c4 := Consume(Consume(c2));
              c4.at.Handle? && c4.at.fd == fd && Waiting(c) == [c4.at.packet] + Waiting(c4)
            else c2 == c.(at := Await)
  {
    hide FromTail;
    AfterPop(c.data, c.tail, c.head);
  }

  lemma Advance(q: nat, d: nat)
    requires d < RING_BUFFER_SIZE
    ensures var i := q % RING_BUFFER_SIZE + d;
            (q + d) % RING_BUFFER_SIZE == if i < RING_BUFFER_SIZE then i else i - RING_BUFFER_SIZE
  {
    var i, laps := q % RING_BUFFER_SIZE + d, q / RING_BUFFER_SIZE;
    assert q + d == laps * RING_BUFFER_SIZE + i;
  }

  lemma Distance(p: nat, q: nat)
    requires q <= p < q + RING_BUFFER_SIZE
    ensures (p % RING_BUFFER_SIZE - q % RING_BUFFER_SIZE) % RING_BUFFER_SIZE == p - q
  {
    Advance(q, p - q);
  }

  /** The ring is a queue: what was popped, followed by what is waiting, is what was pushed. */
  lemma RingIsQueue(c: Channel)
    requires RingInv(c)
    ensures |c.popped| + |Waiting(c)| == |c.pushed|
    ensures forall i :: 0 <= i < |c.popped| ==> c.popped[i] == c.pushed[i].packet
    ensures forall k :: 0 <= k < |Waiting(c)| ==> Waiting(c)[k] == c.pushed[|c.popped| + k].packet
    ensures Next(c.head) == c.tail <==> !HasRoom(Waiting(c))
  {
    hide FromTail;
    var q := |c.popped|;
    Distance(|c.pushed|, q);
    HowMany(c.data, c.tail, c.head);
    AfterPush(c.data, c.tail, c.head, BLANK);
    forall k | 0 <= k < |Waiting(c)|
      ensures Waiting(c)[k] == c.pushed[q + k].packet
    {
      ItemFromTail(c.data, c.tail, c.head, k);
      Advance(q, k);
      assert c.data[(q + k) % RING_BUFFER_SIZE] == c.pushed[q + k].packet;
    }
  }
}
