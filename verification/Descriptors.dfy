/** Which descriptor a worker handles a packet under. */
module Descriptors {
  import opened RingBuffer
  import opened Dispatch
  import opened PacketFlow
  import Toeplitz

  // ---- message numbers

  /** Number a worker's arrivals and messages from 1; message k carries the descriptor of arrival k. */
  ghost predicate UnderMessages(c: Channel, capacity: nat) {
    && |c.took| == |c.popped|
    && |c.handled| <= |c.took| <= |c.pushed|
    && (forall i :: 0 <= i < |c.took| ==> 1 <= c.took[i] <= i + 1 <= c.took[i] + capacity + 1)
    && (forall i, j :: 0 <= i < j < |c.took| ==> c.took[i] <= c.took[j])
    && (c.at.Await? ==> c.read <= |c.popped|)
    && (forall i :: 0 <= i < |c.handled| ==> HandledUnder(c, i, c.took[i]))
  }

  /** Packet i was handled, and under the descriptor of arrival k. */
  ghost predicate HandledUnder(c: Channel, i: nat, k: nat) {
    i < |c.handled| <= |c.pushed| && 1 <= k <= |c.pushed|
    && c.handled[i] == Handling(c.pushed[i].packet, c.pushed[k - 1].fd)
  }

  /**
   * A packet popped while message k is handled is number k at least and number k + capacity + 1 at most, and once
   * the worker waits again packets 1 to k have all been popped; the packet is handled under the descriptor of
   * arrival k, and k never goes down.
   */
  lemma HandledUnderMessage(s: System, w: nat)
    requires Reachable(s) && w < |s.workers|
    ensures UnderMessages(s.workers[w], s.capacity)
  {
    hide Reachable, ForWorker, MessageInv, ConsumerInv, ProducerInv;
    ReachableInv(s);
    assert WorkerInv(s, w);
  }

  /** So a worker whose arrivals all come in on one descriptor handles each of them under its own. */
  lemma OneDescriptor(s: System, w: nat, fd: int)
    requires Reachable(s) && w < |s.workers|
    requires forall i :: 0 <= i < |s.workers[w].pushed| ==> s.workers[w].pushed[i].fd == fd
    ensures var c := s.workers[w];
            |c.handled| <= |c.pushed|
            && forall i :: 0 <= i < |c.handled| ==> c.handled[i] == Handling(c.pushed[i].packet, c.pushed[i].fd)
  {
    hide Reachable;
    HandledUnderMessage(s, w);
    var c := s.workers[w];
    forall i | 0 <= i < |c.handled|
      ensures c.handled[i] == Handling(c.pushed[i].packet, c.pushed[i].fd)
    {
      assert HandledUnder(c, i, c.took[i]);
    }
  }

  // ---- runs, step by step

  lemma Extend(start: System, steps: seq<Step>, s: System, step: Step) returns (longer: seq<Step>, t: System)
    requires Run(start, steps) == Reached(s) && Enabled(s, step)
    ensures Run(start, longer) == Reached(t) && t == Do(s, step)
  {
    longer, t := steps + [step], Do(s, step);
    assert longer[..|steps|] == steps;
  }

  lemma NoSteps(start: System)
    ensures Run(start, []) == Reached(start)
  {
  }

  /** A worker that has nothing to do. */
  predicate Idle(c: Channel) {
    c.at.Await? && c.pipe == [] && c.head == c.tail && |c.handled| == |c.pushed|
  }

  /** A worker with one packet in its ring, and perhaps its message in its pipe, that has not looked yet. */
  function Notified(c: Channel, a: Arrival, pipe: seq<int>): Channel {
    c.(data := c.data[c.head := a.packet], head := Next(c.head), pushed := c.pushed + [a], pipe := pipe)
  }

  /** The dispatcher takes in an arrival, up to the store that makes the push visible. */
  lemma Push(start: System, steps: seq<Step>, s: System, a: Arrival, w: nat) returns (longer: seq<Step>, t: System)
    requires Run(start, steps) == Reached(s) && |s.workers| > 0 && s.producer == Free
    requires w == WorkerOf(a.packet, |s.workers|) && Next(s.workers[w].head) != s.workers[w].tail
    ensures Run(start, longer) == Reached(t)
    ensures var c := s.workers[w];
            t == s.(workers := s.workers[w := Notified(c, a, c.pipe)], producer := Notify(a.fd), serving := w,
                    received := s.received + [a])
  {
    hide Run, Next, WorkerOf;
    longer, t := Extend(start, steps, s, Receive(a));
    longer, t := Extend(start, longer, t, Serve);
    longer, t := Extend(start, longer, t, Serve);
    longer, t := Extend(start, longer, t, Serve);
    longer, t := Extend(start, longer, t, Serve);
  }

  /** The same, and tells the worker. */
  lemma TakeIn(start: System, steps: seq<Step>, s: System, a: Arrival, w: nat) returns (longer: seq<Step>, t: System)
    requires Run(start, steps) == Reached(s) && |s.workers| > 0 && s.producer == Free
    requires w == WorkerOf(a.packet, |s.workers|) && Next(s.workers[w].head) != s.workers[w].tail
    requires |s.workers[w].pipe| < s.capacity
    ensures Run(start, longer) == Reached(t)
    ensures var c := s.workers[w];
            t == s.(workers := s.workers[w := Notified(c, a, c.pipe + [a.fd])], serving := w,
                    received := s.received + [a])
  {
    hide Run, Next, WorkerOf;
    longer, t := Push(start, steps, s, a, w);
    longer, t := Extend(start, longer, t, Serve);
  }

  /** A worker that is draining its ring pops one packet and handles it. */
  lemma TakeOut(start: System, steps: seq<Step>, s: System, w: nat) returns (longer: seq<Step>, t: System)
    requires Run(start, steps) == Reached(s) && w < |s.workers|
    requires s.workers[w].at.PopLoadTail? && s.workers[w].tail != s.workers[w].head
    ensures Run(start, longer) == Reached(t)
    ensures var c := s.workers[w];
            var packet := c.data[c.tail];
            t == s.(workers := s.workers[w := c.(tail := Next(c.tail), popped := c.popped + [packet],
                                                 took := c.took + [c.read],
                                                 handled := c.handled + [Handling(packet, c.at.fd)])],
                    turns := s.turns + [Turn(w, |c.handled|)])
  {
    hide Run, Next;
    longer, t := Extend(start, steps, s, Work(w));
    longer, t := Extend(start, longer, t, Work(w));
    longer, t := Extend(start, longer, t, Work(w));
    longer, t := Extend(start, longer, t, Work(w));
    longer, t := Extend(start, longer, t, Work(w));
  }

  /** A worker with an empty ring goes back to its pipe. */
  lemma StopDraining(start: System, steps: seq<Step>, s: System, w: nat) returns (longer: seq<Step>, t: System)
    requires Run(start, steps) == Reached(s) && w < |s.workers|
    requires s.workers[w].at.PopLoadTail? && s.workers[w].tail == s.workers[w].head
    ensures Run(start, longer) == Reached(t) && t == s.(workers := s.workers[w := s.workers[w].(at := Await)])
  {
    hide Run;
    longer, t := Extend(start, steps, s, Work(w));
    longer, t := Extend(start, longer, t, Work(w));
  }

  // ---- the failing run

  lemma NextDiffers(i: Index)
    ensures Next(i) != i && Next(Next(i)) != i
  {
  }

  /** An idle worker handles an arrival under its own descriptor and is idle again. */
  lemma PassThrough(start: System, steps: seq<Step>, s: System, a: Arrival, w: nat)
    returns (longer: seq<Step>, t: System)
    requires Run(start, steps) == Reached(s) && |s.workers| > 0 && s.producer == Free && s.capacity > 0
    requires w == WorkerOf(a.packet, |s.workers|) && Idle(s.workers[w])
    ensures Run(start, longer) == Reached(t) && t.producer == Free && t.capacity == s.capacity
    ensures |t.workers| == |s.workers| && t.workers == s.workers[w := t.workers[w]] && t.received == s.received + [a]
    ensures Idle(t.workers[w])
  {
    hide Run, Next, WorkerOf;
    NextDiffers(s.workers[w].head);
    longer, t := TakeIn(start, steps, s, a, w);
    longer, t := Extend(start, longer, t, Work(w));
    longer, t := TakeOut(start, longer, t, w);
    longer, t := StopDraining(start, longer, t, w);
  }

  /** Only worker w, if any, is not idle, and the dispatcher is free. */
  ghost predicate OthersIdle(s: System, w: nat) {
    s.producer == Free && s.capacity > 0 && forall v :: 0 <= v < |s.workers| && v != w ==> Idle(s.workers[v])
  }

  /** Arrivals for other workers leave worker w as it is. */
  lemma {:induction false} PassOthers(start: System, steps: seq<Step>, s: System, arrivals: seq<Arrival>, w: nat)
    returns (longer: seq<Step>, t: System)
    requires Run(start, steps) == Reached(s) && |s.workers| > 0 && OthersIdle(s, w)
    requires forall a :: a in arrivals ==> w >= |s.workers| || WorkerOf(a.packet, |s.workers|) != w
    ensures Run(start, longer) == Reached(t) && OthersIdle(t, w) && t.capacity == s.capacity
    ensures |t.workers| == |s.workers| && t.received == s.received + arrivals
    ensures w < |s.workers| ==> t.workers[w] == s.workers[w]
    decreases |arrivals|
  {
    hide Run, WorkerOf, Idle;
    if arrivals == [] {
      longer, t := steps, s;
    } else {
      var a := arrivals[0];
      assert a in arrivals;
      longer, t := PassThrough(start, steps, s, a, WorkerOf(a.packet, |s.workers|));
      longer, t := PassOthers(start, longer, t, arrivals[1..], w);
      assert s.received + [a] + arrivals[1..] == s.received + arrivals;
    }
  }

  lemma StartIdle(n: nat, capacity: nat)
    requires capacity > 0
    ensures OthersIdle(Start(n, capacity), n)
  {
  }

  /** A worker that has handled everything it was pushed, and looks for more under the same message. */
  ghost predicate Draining(c: Channel, fd: int) {
    c.at == PopLoadTail(fd) && c.head == c.tail && |c.handled| == |c.pushed|
  }

  /** Such a worker takes an arrival in and out, and its message stays in the pipe. */
  lemma DrainOne(start: System, steps: seq<Step>, s: System, a: Arrival, w: nat, fd: int)
    returns (longer: seq<Step>, t: System)
    requires Run(start, steps) == Reached(s) && |s.workers| > 0 && OthersIdle(s, w)
    requires w == WorkerOf(a.packet, |s.workers|) && Draining(s.workers[w], fd) && |s.workers[w].pipe| < s.capacity
    ensures Run(start, longer) == Reached(t) && OthersIdle(t, w) && t.capacity == s.capacity
    ensures |t.workers| == |s.workers| && t.received == s.received + [a] && Draining(t.workers[w], fd)
    ensures t.workers[w].read == s.workers[w].read && |t.workers[w].pipe| == |s.workers[w].pipe| + 1
  {
    hide Run, WorkerOf, Next, Idle;
    NextDiffers(s.workers[w].head);
    longer, t := TakeIn(start, steps, s, a, w);
    longer, t := TakeOut(start, longer, t, w);
  }

  /** It can go on like this as long as its pipe has room; the other workers handle theirs at once. */
  lemma {:induction false} KeepDraining(
      start: System, steps: seq<Step>, s: System, arrivals: seq<Arrival>, w: nat, fd: int)
    returns (longer: seq<Step>, t: System)
    requires Run(start, steps) == Reached(s) && w < |s.workers| && OthersIdle(s, w) && Draining(s.workers[w], fd)
    requires |s.workers[w].pipe| + |ForWorker(arrivals, w, |s.workers|)| <= s.capacity
    ensures Run(start, longer) == Reached(t) && OthersIdle(t, w) && t.capacity == s.capacity
    ensures |t.workers| == |s.workers| && t.received == s.received + arrivals && Draining(t.workers[w], fd)
    ensures t.workers[w].read == s.workers[w].read
    ensures |t.workers[w].pipe| == |s.workers[w].pipe| + |ForWorker(arrivals, w, |s.workers|)|
    decreases |arrivals|
  {
    hide Run, WorkerOf, Idle;
    if arrivals == [] {
      longer, t := steps, s;
    } else {
      var before, a := arrivals[..|arrivals| - 1], arrivals[|arrivals| - 1];
      longer, t := KeepDraining(start, steps, s, before, w, fd);
      if WorkerOf(a.packet, |s.workers|) == w {
        longer, t := DrainOne(start, longer, t, a, w, fd);
      } else {
        longer, t := PassThrough(start, longer, t, a, WorkerOf(a.packet, |s.workers|));
      }
      assert s.received + before + [a] == s.received + arrivals;
    }
  }

  // ---- places among the arrivals

  predicate SameWorker(arrivals: seq<Arrival>, n: nat, i: nat, j: nat)
    requires n > 0 && i < |arrivals| && j < |arrivals|
  {
    WorkerOf(arrivals[i].packet, n) == WorkerOf(arrivals[j].packet, n)
  }

  lemma {:induction false} ForWorkerJoin(a: seq<Arrival>, b: seq<Arrival>, w: nat, n: nat)
    requires n > 0
    ensures ForWorker(a + b, w, n) == ForWorker(a, w, n) + ForWorker(b, w, n)
    decreases |b|
  {
    hide WorkerOf;
    if b == [] {
      assert a + b == a;
    } else {
      assert (a + b)[..|a + b| - 1] == a + b[..|b| - 1];
      ForWorkerJoin(a, b[..|b| - 1], w, n);
    }
  }

  lemma ForWorkerOne(a: Arrival, n: nat)
    requires n > 0
    ensures ForWorker([a], WorkerOf(a.packet, n), n) == [a]
  {
    hide WorkerOf;
    assert [a][..0] == [] && ForWorker([], WorkerOf(a.packet, n), n) == [];
  }

  /** How many arrivals the worker of arrival i gets before it. */
  function Rank(arrivals: seq<Arrival>, n: nat, i: nat): nat
    requires n > 0 && i < |arrivals|
  {
    |ForWorker(arrivals[..i], WorkerOf(arrivals[i].packet, n), n)|
  }

  /** What arrival i's worker gets of the arrivals up to a later point. */
  lemma RankSplits(arrivals: seq<Arrival>, n: nat, i: nat, j: nat)
    requires n > 0 && i < j <= |arrivals|
    ensures var w := WorkerOf(arrivals[i].packet, n);
            var own := ForWorker(arrivals[..j], w, n);
            Rank(arrivals, n, i) < |own| && own[Rank(arrivals, n, i)] == arrivals[i]
            && |own| == Rank(arrivals, n, i) + 1 + |ForWorker(arrivals[i + 1..j], w, n)|
  {
    hide WorkerOf, ForWorker;
    var w := WorkerOf(arrivals[i].packet, n);
    var a, b := arrivals[..i] + [arrivals[i]], arrivals[i + 1..j];
    assert arrivals[..j] == a + b;
    ForWorkerJoin(a, b, w, n);
    ForWorkerJoin(arrivals[..i], [arrivals[i]], w, n);
    ForWorkerOne(arrivals[i], n);
  }

  /** Every one of a worker's arrivals has its place among all of them. */
  lemma {:induction false} Place(arrivals: seq<Arrival>, w: nat, n: nat, x: nat) returns (i: nat)
    requires n > 0 && x < |ForWorker(arrivals, w, n)|
    ensures i < |arrivals| && arrivals[i] == ForWorker(arrivals, w, n)[x]
    ensures WorkerOf(arrivals[i].packet, n) == w && Rank(arrivals, n, i) == x
    decreases |arrivals|
  {
    hide WorkerOf;
    var before := arrivals[..|arrivals| - 1];
    if x < |ForWorker(before, w, n)| {
      i := Place(before, w, n, x);
      assert before[..i] == arrivals[..i];
    } else {
      i := |before|;
    }
  }

  lemma PlacesInOrder(arrivals: seq<Arrival>, n: nat, i: nat, j: nat)
    requires n > 0 && i < |arrivals| && j < |arrivals|
    requires SameWorker(arrivals, n, i, j)
    requires Rank(arrivals, n, i) <= Rank(arrivals, n, j)
    ensures i <= j
  {
    hide WorkerOf, ForWorker;
    if j < i {
      RankSplits(arrivals, n, j, i);
    }
  }

  /** Arrivals i and j have one worker, which gets j at most capacity + 1 places behind i. */
  predicate InReach(arrivals: seq<Arrival>, n: nat, capacity: nat, i: nat, j: nat)
    requires n > 0
  {
    i <= j < |arrivals| && SameWorker(arrivals, n, i, j)
    && Rank(arrivals, n, j) <= Rank(arrivals, n, i) + capacity + 1
  }

  lemma InReachExtends(a: seq<Arrival>, b: seq<Arrival>, n: nat, capacity: nat, i: nat, j: nat)
    requires n > 0 && a <= b && InReach(a, n, capacity, i, j)
    ensures InReach(b, n, capacity, i, j) && a[i] == b[i] && a[j] == b[j]
  {
    hide WorkerOf, ForWorker;
    assert a[..i] == b[..i] && a[..j] == b[..j];
  }

  // ---- which packet can be handled under which message

  /** Every packet was handled under the message of an arrival in reach. */
  lemma HandledInReach(s: System, w: nat, y: nat) returns (i: nat, j: nat)
    requires Reachable(s) && w < |s.workers| && y < |s.workers[w].handled|
    ensures y < |s.workers[w].took| && y < |s.workers[w].pushed|
    ensures InReach(s.received, |s.workers|, s.capacity, i, j) && WorkerOf(s.received[j].packet, |s.workers|) == w
    ensures s.workers[w].pushed[y] == s.received[j]
    ensures s.workers[w].handled[y] == Handling(s.received[j].packet, s.received[i].fd)
    ensures Rank(s.received, |s.workers|, i) + 1 == s.workers[w].took[y] && Rank(s.received, |s.workers|, j) == y
  {
    hide Reachable, WorkerOf, ForWorker, Inv, Rank;
    HandledUnderMessage(s, w);
    ReachableInv(s);
    assert WorkerInv(s, w);
    var c, n := s.workers[w], |s.workers|;
    var own := ForWorker(s.received, w, n);
    assert HandledUnder(c, y, c.took[y]);
    i := Place(s.received, w, n, c.took[y] - 1);
    j := Place(s.received, w, n, y);
    PlacesInOrder(s.received, n, i, j);
  }

  /** The last turn handled the last packet worker w was pushed, under the message it read last. */
  ghost predicate LastTurn(s: System, w: nat, a: Arrival, fd: int) {
    w < |s.workers|
    && var c := s.workers[w];
       c.pushed != [] && c.took != [] && s.turns != [] && |c.handled| == |c.pushed|
       && c.pushed[|c.pushed| - 1] == a && c.handled[|c.handled| - 1] == Handling(a.packet, fd)
       && c.took[|c.took| - 1] == c.read && s.turns[|s.turns| - 1] == Turn(w, |c.handled| - 1)
  }

  /** Everything before arrival i is handled at once, then its worker handles it and goes on looking for more. */
  lemma ReadMessage(n: nat, capacity: nat, arrivals: seq<Arrival>, i: nat) returns (steps: seq<Step>, s: System)
    requires n > 0 && capacity > 0 && i < |arrivals|
    ensures Run(Start(n, capacity), steps) == Reached(s) && |s.workers| == n && s.received == arrivals[..i + 1]
    ensures var w := WorkerOf(arrivals[i].packet, n);
            OthersIdle(s, w) && s.capacity == capacity && Draining(s.workers[w], arrivals[i].fd)
            && s.workers[w].pipe == [] && LastTurn(s, w, arrivals[i], arrivals[i].fd)
  {
    hide Run, WorkerOf, Next;
    var start := Start(n, capacity);
    NoSteps(start);
    StartIdle(n, capacity);
    var a := arrivals[i];
    var w := WorkerOf(a.packet, n);
    steps, s := PassOthers(start, [], start, arrivals[..i], n);
    NextDiffers(s.workers[w].head);
    steps, s := TakeIn(start, steps, s, a, w);
    assert arrivals[..i] + [a] == arrivals[..i + 1];
    steps, s := Extend(start, steps, s, Work(w));
    steps, s := TakeOut(start, steps, s, w);
  }

  /** Any later arrival in reach can then be handled under the same message: it is pushed while its worker looks. */
  lemma UnderEarlier(n: nat, capacity: nat, arrivals: seq<Arrival>, i: nat, j: nat)
    returns (steps: seq<Step>, s: System)
    requires n > 0 && capacity > 0 && InReach(arrivals, n, capacity, i, j)
    ensures Run(Start(n, capacity), steps) == Reached(s) && |s.workers| == n && s.received == arrivals[..j + 1]
    ensures LastTurn(s, WorkerOf(arrivals[j].packet, n), arrivals[j], arrivals[i].fd)
    ensures var c := s.workers[WorkerOf(arrivals[j].packet, n)];
            c.read == Rank(arrivals, n, i) + 1 && |c.handled| == |c.took| == Rank(arrivals, n, j) + 1
  {
    hide Run, WorkerOf, Next, ForWorker, Idle, Rank;
    var start, b, w := Start(n, capacity), arrivals[j], WorkerOf(arrivals[j].packet, n);
    steps, s := ReadMessage(n, capacity, arrivals, i);
    if i < j {
      RankSplits(arrivals, n, i, j);
      RankIs(arrivals, n, j);
      steps, s := KeepDraining(start, steps, s, arrivals[i + 1..j], w, arrivals[i].fd);
      assert arrivals[..i + 1] + arrivals[i + 1..j] == arrivals[..j];
      NextDiffers(s.workers[w].head);
      steps, s := Push(start, steps, s, b, w);
      assert arrivals[..j] + [b] == arrivals[..j + 1];
      steps, s := TakeOut(start, steps, s, w);
    }
    RankSplits(arrivals, n, j, j + 1);
    NothingBehind(arrivals, w, n, j);
    CountMessages(n, capacity, steps, s, w);
  }

  lemma RankIs(arrivals: seq<Arrival>, n: nat, i: nat)
    requires n > 0 && i < |arrivals|
    ensures Rank(arrivals, n, i) == |ForWorker(arrivals[..i], WorkerOf(arrivals[i].packet, n), n)|
  {
  }

  lemma NothingBehind(arrivals: seq<Arrival>, w: nat, n: nat, j: nat)
    requires n > 0 && j < |arrivals|
    ensures ForWorker(arrivals[j + 1..j + 1], w, n) == []
  {
  }

  /** Messages read, messages in the pipe and a message not yet written are as many as the arrivals pushed. */
  lemma CountMessages(n: nat, capacity: nat, steps: seq<Step>, s: System, w: nat)
    requires n > 0 && capacity > 0 && Run(Start(n, capacity), steps) == Reached(s) && w < |s.workers|
    requires s.producer == Free || s.producer.Notify?
    ensures Reachable(s) && s.capacity == capacity && |s.workers| == n
    ensures var c := s.workers[w];
            c.pushed == ForWorker(s.received, w, n) && |c.handled| <= |c.took| <= |c.pushed|
            && |c.pushed| == c.read + |c.pipe| + (if w == s.serving && s.producer.Notify? then 1 else 0)
  {
    hide Run, ForWorker;
    RunKeepsSize(n, capacity, steps);
    ReachableInv(s);
    assert WorkerInv(s, w);
    HandledUnderMessage(s, w);
  }

  lemma RunKeepsSize(n: nat, capacity: nat, steps: seq<Step>)
    requires n > 0 && Run(Start(n, capacity), steps).Reached?
    ensures var s := Run(Start(n, capacity), steps).state; s.capacity == capacity && |s.workers| == n
  {
    hide Run;
    StartKeeps(n, capacity);
    RunKeeps(Start(n, capacity), steps);
  }

  /** These steps are a run over the arrivals in which arrival j is handled under the message of arrival i. */
  ghost predicate HandlesUnder(n: nat, capacity: nat, arrivals: seq<Arrival>, i: nat, j: nat, steps: seq<Step>)
    requires n > 0 && i < |arrivals| && j < |arrivals|
  {
    var r, w, y := Run(Start(n, capacity), steps), WorkerOf(arrivals[j].packet, n), Rank(arrivals, n, j);
    r.Reached? && r.state.received <= arrivals && w < |r.state.workers|
    && var c := r.state.workers[w];
       y < |c.handled| && y < |c.took| && c.took[y] == Rank(arrivals, n, i) + 1
       && c.handled[y] == Handling(arrivals[j].packet, arrivals[i].fd)
  }

  /**
   * Of two arrivals of one worker some run handles the one under the message of the other exactly if it is not the
   * older one and comes at most capacity + 1 places behind.
   */
  lemma HandledUnderIff(n: nat, capacity: nat, arrivals: seq<Arrival>, i: nat, j: nat)
    requires n > 0 && capacity > 0 && i < |arrivals| && j < |arrivals|
    requires SameWorker(arrivals, n, i, j)
    ensures (exists steps :: HandlesUnder(n, capacity, arrivals, i, j, steps)) <==> InReach(arrivals, n, capacity, i, j)
  {
    hide Run, WorkerOf, Rank, ForWorker;
    if InReach(arrivals, n, capacity, i, j) {
      var steps, s := UnderEarlier(n, capacity, arrivals, i, j);
      assert HandlesUnder(n, capacity, arrivals, i, j, steps);
    }
    if steps :| HandlesUnder(n, capacity, arrivals, i, j, steps) {
      var s := Run(Start(n, capacity), steps).state;
      CountTook(n, capacity, steps, s, WorkerOf(arrivals[j].packet, n));
      PlacesInOrder(arrivals, n, i, j);
    }
  }

  lemma CountTook(n: nat, capacity: nat, steps: seq<Step>, s: System, w: nat)
    requires n > 0 && capacity > 0 && Run(Start(n, capacity), steps) == Reached(s) && w < |s.workers|
    ensures UnderMessages(s.workers[w], capacity)
  {
    hide Run;
    RunKeepsSize(n, capacity, steps);
    HandledUnderMessage(s, w);
  }

  /** Two arrivals for one worker, and none for it between them. */
  ghost predicate Neighbours(arrivals: seq<Arrival>, n: nat, i: nat, j: nat)
    requires n > 0
  {
    i < j < |arrivals| && SameWorker(arrivals, n, i, j)
    && forall k :: i < k < j ==> WorkerOf(arrivals[k].packet, n) != WorkerOf(arrivals[i].packet, n)
  }

  lemma {:induction false} NoneForWorker(arrivals: seq<Arrival>, w: nat, n: nat)
    requires n > 0 && forall a :: a in arrivals ==> WorkerOf(a.packet, n) != w
    ensures ForWorker(arrivals, w, n) == []
    decreases |arrivals|
  {
    hide WorkerOf;
    if arrivals != [] {
      NoneForWorker(arrivals[..|arrivals| - 1], w, n);
    }
  }

  /** Neighbours are in reach, whatever the pipe holds. */
  lemma SecondUnderFirst(n: nat, capacity: nat, arrivals: seq<Arrival>, i: nat, j: nat)
    returns (steps: seq<Step>, s: System)
    requires n > 0 && capacity > 0 && Neighbours(arrivals, n, i, j)
    ensures Run(Start(n, capacity), steps) == Reached(s) && |s.workers| == n && s.received == arrivals[..j + 1]
    ensures LastTurn(s, WorkerOf(arrivals[j].packet, n), arrivals[j], arrivals[i].fd)
  {
    hide Run, WorkerOf, ForWorker, LastTurn;
    NoneForWorker(arrivals[i + 1..j], WorkerOf(arrivals[i].packet, n), n);
    RankSplits(arrivals, n, i, j);
    steps, s := UnderEarlier(n, capacity, arrivals, i, j);
  }

  // ---- the exact condition

  /** Every packet so far was handled under the descriptor it arrived on. */
  ghost predicate OwnDescriptors(s: System) {
    forall w, k :: 0 <= w < |s.workers| && 0 <= k < |s.workers[w].handled| ==> OwnAt(s.workers[w], k)
  }

  ghost predicate OwnAt(c: Channel, k: nat) {
    k < |c.handled| && k < |c.pushed| && c.handled[k] == Handling(c.pushed[k].packet, c.pushed[k].fd)
  }

  /** No two arrivals of one worker differ in descriptor. */
  ghost predicate OneDescriptorEach(arrivals: seq<Arrival>, n: nat)
    requires n > 0
  {
    forall a, b :: a in arrivals && b in arrivals && WorkerOf(a.packet, n) == WorkerOf(b.packet, n) ==> a.fd == b.fd
  }

  /** If these steps are a run that receives no more than a beginning of the arrivals, it handles all as their own. */
  ghost predicate HandlesAsOwn(n: nat, capacity: nat, arrivals: seq<Arrival>, steps: seq<Step>) {
    var r := Run(Start(n, capacity), steps);
    r.Reached? && r.state.received <= arrivals ==> OwnDescriptors(r.state)
  }

  lemma {:induction false} ForWorkerIsOf(arrivals: seq<Arrival>, w: nat, n: nat)
    requires n > 0
    ensures forall a :: a in ForWorker(arrivals, w, n) ==> a in arrivals && WorkerOf(a.packet, n) == w
    decreases |arrivals|
  {
    hide WorkerOf;
    if arrivals != [] {
      ForWorkerIsOf(arrivals[..|arrivals| - 1], w, n);
    }
  }

  lemma PushedIsFor(s: System, w: nat)
    requires SystemInv(s) && w < |s.workers|
    ensures forall a :: a in s.workers[w].pushed ==> a in s.received && WorkerOf(a.packet, |s.workers|) == w
  {
    hide Inv, ForWorker, WorkerOf;
    assert WorkerInv(s, w);
    ForWorkerIsOf(s.received, w, |s.workers|);
  }

  lemma OneDescriptorIsEnough(s: System, arrivals: seq<Arrival>)
    requires Reachable(s) && s.workers != [] && s.received <= arrivals && OneDescriptorEach(arrivals, |s.workers|)
    ensures OwnDescriptors(s)
  {
    hide Reachable, SystemInv, WorkerOf;
    ReachableInv(s);
    forall w, k | 0 <= w < |s.workers| && 0 <= k < |s.workers[w].handled|
      ensures OwnAt(s.workers[w], k)
    {
      var c := s.workers[w];
      HandledUnderMessage(s, w);
      PushedIsFor(s, w);
      assert HandledUnder(c, k, c.took[k]);
      OneDescriptor(s, w, c.pushed[0].fd);
    }
  }

  /** Two arrivals of one worker on different descriptors have two such neighbours between them. */
  lemma {:induction false} NeighboursDiffer(arrivals: seq<Arrival>, n: nat, i: nat, j: nat)
    returns (i': nat, j': nat)
    requires n > 0 && i < j < |arrivals| && SameWorker(arrivals, n, i, j)
    requires arrivals[i].fd != arrivals[j].fd
    ensures Neighbours(arrivals, n, i', j') && arrivals[i'].fd != arrivals[j'].fd
    decreases j - i
  {
    hide WorkerOf;
    if k: nat :| i < k < j && WorkerOf(arrivals[k].packet, n) == WorkerOf(arrivals[i].packet, n) {
      if arrivals[k].fd != arrivals[i].fd {
        i', j' := NeighboursDiffer(arrivals, n, i, k);
      } else {
        i', j' := NeighboursDiffer(arrivals, n, k, j);
      }
    } else {
      i', j' := i, j;
    }
  }

  lemma ClashIsNotOwn(n: nat, capacity: nat, arrivals: seq<Arrival>, i: nat, j: nat) returns (steps: seq<Step>)
    requires n > 0 && capacity > 0 && i < j < |arrivals|
    requires SameWorker(arrivals, n, i, j) && arrivals[i].fd != arrivals[j].fd
    ensures !HandlesAsOwn(n, capacity, arrivals, steps)
  {
    hide Run, WorkerOf;
    var i', j' := NeighboursDiffer(arrivals, n, i, j);
    var s;
    steps, s := SecondUnderFirst(n, capacity, arrivals, i', j');
    var w := WorkerOf(arrivals[j'].packet, n);
    var c := s.workers[w];
    assert !OwnAt(c, |c.handled| - 1);
  }

  /**
   * Every run over these arrivals, with any number of workers and any pipe, handles each packet under the
   * descriptor it arrived on, exactly if no two arrivals of one worker differ in descriptor.
   */
  lemma OwnDescriptorIff(n: nat, capacity: nat, arrivals: seq<Arrival>)
    requires n > 0 && capacity > 0
    ensures (forall steps :: HandlesAsOwn(n, capacity, arrivals, steps)) <==> OneDescriptorEach(arrivals, n)
  {
    hide Run, WorkerOf;
    if OneDescriptorEach(arrivals, n) {
      forall steps
        ensures HandlesAsOwn(n, capacity, arrivals, steps)
      {
        var r := Run(Start(n, capacity), steps);
        if r.Reached? && r.state.received <= arrivals {
          StartKeeps(n, capacity);
          RunKeeps(Start(n, capacity), steps);
          OneDescriptorIsEnough(r.state, arrivals);
        }
      }
    } else {
      var a, b :| a in arrivals && b in arrivals && WorkerOf(a.packet, n) == WorkerOf(b.packet, n) && a.fd != b.fd;
      var i: nat :| i < |arrivals| && arrivals[i] == a;
      var j: nat :| j < |arrivals| && arrivals[j] == b;
      var steps;
      if i < j {
        steps := ClashIsNotOwn(n, capacity, arrivals, i, j);
      } else {
        steps := ClashIsNotOwn(n, capacity, arrivals, j, i);
      }
    }
  }

  // ---- two arrivals

  /**
   * The failing run for two arrivals of one of any number of workers: both are handled, the second under the
   * first one's descriptor.
   */
  lemma UnderAnotherDescriptor(n: nat, capacity: nat, first: Arrival, second: Arrival) returns (s: System, w: nat)
    requires n > 0 && capacity > 0 && WorkerOf(first.packet, n) == WorkerOf(second.packet, n)
    ensures Reachable(s) && |s.workers| == n && w == WorkerOf(first.packet, n) && s.received == [first, second]
    ensures s.workers[w].pushed == [first, second] && s.turns == [Turn(w, 0), Turn(w, 1)]
    ensures s.workers[w].handled == [Handling(first.packet, first.fd), Handling(second.packet, first.fd)]
  {
    hide Run, WorkerOf, Next;
    var start, steps: seq<Step> := Start(n, capacity), [];
    NoSteps(start);
    w := WorkerOf(first.packet, n);
    NextDiffers(start.workers[w].head);
    NextDiffers(Next(start.workers[w].head));
    steps, s := TakeIn(start, steps, start, first, w);
    steps, s := Push(start, steps, s, second, w);
    steps, s := Extend(start, steps, s, Work(w));
    steps, s := TakeOut(start, steps, s, w);
    steps, s := TakeOut(start, steps, s, w);
    assert Run(Start(n, capacity), steps) == Reached(s);
  }

  /** The second packet answers the first: full headers with the addresses swapped. */
  predicate Answers(reply: Packet, request: Packet) {
    request.length >= Toeplitz.HEADER_SIZE && reply.length >= Toeplitz.HEADER_SIZE
    && reply.bytes[..6] == request.bytes[6..12] && reply.bytes[6..12] == request.bytes[..6]
  }

  lemma AnswersShareWorker(reply: Packet, request: Packet, n: nat)
    requires n > 0 && Answers(reply, request)
    ensures WorkerOf(request, n) == WorkerOf(reply, n)
  {
    Toeplitz.RepliesShareWorker(request.bytes, reply.bytes, request.length, reply.length, n);
  }

  /** Two-way traffic between two descriptors fails for every number of workers. */
  lemma TwoWayTraffic(n: nat, capacity: nat, request: Arrival, reply: Arrival) returns (s: System, w: nat)
    requires n > 0 && capacity > 0 && Answers(reply.packet, request.packet) && request.fd != reply.fd
    ensures Reachable(s) && |s.workers| == n && w < n && s.workers[w].pushed == [request, reply]
    ensures s.workers[w].handled == [Handling(request.packet, request.fd), Handling(reply.packet, request.fd)]
    ensures !OwnDescriptors(s) && !OneDescriptorEach([request, reply], n)
  {
    hide WorkerOf, Answers, Reachable;
    AnswersShareWorker(reply.packet, request.packet, n);
    s, w := UnderAnotherDescriptor(n, capacity, request, reply);
    assert !OwnAt(s.workers[w], 1);
    assert request in [request, reply] && reply in [request, reply];
  }
}
