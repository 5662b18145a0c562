/** The ring between the dispatcher and one worker, each operation taken as a whole. */
module RingBuffer {

  const RING_BUFFER_SIZE := 1024

  /** One slot always stays free, so the capacity is 1023. */
  predicate HasRoom<T>(items: seq<T>) {
    |items| < RING_BUFFER_SIZE - 1
  }

  /** The slots from tail to head, going around at the end. */
  function FromTail<T>(data: seq<T>, tail: nat, head: nat): (items: seq<T>)
    requires |data| == RING_BUFFER_SIZE && tail < RING_BUFFER_SIZE && head < RING_BUFFER_SIZE
    ensures |items| < RING_BUFFER_SIZE
  {
    if tail <= head then data[tail..head] else data[tail..] + data[..head]
  }

  /** The slot behind a slot. */
  lemma AroundTheEnd(slot: nat)
    requires slot < RING_BUFFER_SIZE
    ensures (slot + 1) % RING_BUFFER_SIZE == if slot == RING_BUFFER_SIZE - 1 then 0 else slot + 1
  {
  }

  lemma HowMany<T>(data: seq<T>, tail: nat, head: nat)
    requires |data| == RING_BUFFER_SIZE && tail < RING_BUFFER_SIZE && head < RING_BUFFER_SIZE
    ensures |FromTail(data, tail, head)| == if tail <= head then head - tail else head + RING_BUFFER_SIZE - tail
    ensures |FromTail(data, tail, head)| == (head - tail) % RING_BUFFER_SIZE
  {
  }

  lemma AfterPush<T>(data: seq<T>, tail: nat, head: nat, item: T)
    requires |data| == RING_BUFFER_SIZE && tail < RING_BUFFER_SIZE && head < RING_BUFFER_SIZE
    ensures (head + 1) % RING_BUFFER_SIZE == tail <==> !HasRoom(FromTail(data, tail, head))
    ensures (head + 1) % RING_BUFFER_SIZE != tail ==>
              FromTail(data[head := item], tail, (head + 1) % RING_BUFFER_SIZE) == FromTail(data, tail, head) + [item]
  {
    AroundTheEnd(head);
    HowMany(data, tail, head);
    var after := data[head := item];
    assert after[..head] == data[..head] && after[..head + 1] == data[..head] + [item];
    if tail <= head {
      assert after[tail..head + 1] == data[tail..head] + [item];
    } else {
      assert after[tail..] == data[tail..];
    }
  }

  lemma HeadOfSlice<T>(s: seq<T>, i: nat, j: nat)
    requires i < j <= |s|
    ensures s[i..j] == [s[i]] + s[i + 1..j]
  {
  }

  lemma HeadOfRest<T>(s: seq<T>, i: nat)
    requires i < |s|
    ensures s[i..] == [s[i]] + s[i + 1..]
  {
  }

  lemma Regroup<T>(a: seq<T>, b: seq<T>, c: seq<T>)
    ensures (a + b) + c == a + (b + c)
  {
  }

  /** The oldest item of a queue that goes around the end, and the rest. */
  lemma OldestOfTwoParts<T>(data: seq<T>, tail: nat, head: nat)
    requires |data| == RING_BUFFER_SIZE && head < tail < RING_BUFFER_SIZE
    ensures FromTail(data, tail, head) == [data[tail]] + (data[tail + 1..] + data[..head])
  {
    HeadOfRest(data, tail);
    Regroup([data[tail]], data[tail + 1..], data[..head]);
  }

  lemma AtTheStart<T>(data: seq<T>, head: nat)
    requires |data| == RING_BUFFER_SIZE && head < RING_BUFFER_SIZE
    ensures FromTail(data, 0, head) == data[RING_BUFFER_SIZE..] + data[..head]
  {
  }

  /** The oldest item and the rest. */
  lemma OldestFirst<T>(data: seq<T>, tail: nat, head: nat)
    requires |data| == RING_BUFFER_SIZE && tail < RING_BUFFER_SIZE && head < RING_BUFFER_SIZE && tail != head
    ensures FromTail(data, tail, head) ==
            [data[tail]] + FromTail(data, if tail == RING_BUFFER_SIZE - 1 then 0 else tail + 1, head)
  {
    if tail < head {
      HeadOfSlice(data, tail, head);
    } else {
      OldestOfTwoParts(data, tail, head);
      AtTheStart(data, head);
    }
  }

  lemma AfterPop<T>(data: seq<T>, tail: nat, head: nat)
    requires |data| == RING_BUFFER_SIZE && tail < RING_BUFFER_SIZE && head < RING_BUFFER_SIZE
    ensures tail == head <==> FromTail(data, tail, head) == []
    ensures tail != head ==>
              FromTail(data, tail, head) == [data[tail]] + FromTail(data, (tail + 1) % RING_BUFFER_SIZE, head)
  {
    hide FromTail;
    AroundTheEnd(tail);
    HowMany(data, tail, head);
    if tail != head {
      OldestFirst(data, tail, head);
    }
  }

  /** The item at a place of the queue. */
  lemma ItemFromTail<T>(data: seq<T>, tail: nat, head: nat, k: nat)
    requires |data| == RING_BUFFER_SIZE && tail < RING_BUFFER_SIZE && head < RING_BUFFER_SIZE
    requires k < |FromTail(data, tail, head)|
    ensures FromTail(data, tail, head)[k]
         == data[if tail + k < RING_BUFFER_SIZE then tail + k else tail + k - RING_BUFFER_SIZE]
  {
  }

  class Ring<T(0)> {
    var data: array<T>
    /** Where the next item is written. */
    var head: nat
    /** Where the next item is read. */
    var tail: nat

    ghost predicate Valid()
      reads this
    {
      data.Length == RING_BUFFER_SIZE && head < RING_BUFFER_SIZE && tail < RING_BUFFER_SIZE
    }

    /** The items pushed and not yet popped, oldest first. */
    ghost function Contents(): (items: seq<T>)
      requires Valid()
      reads this, data
      ensures |items| < RING_BUFFER_SIZE
    {
      FromTail(data[..], tail, head)
    }

    /** `ring_buffer_create` */
    constructor ()
      ensures Valid() && fresh(data) && Contents() == []
    {
      data := new T[RING_BUFFER_SIZE];
      head, tail := 0, 0;
    }

    /** `ring_buffer_push` */
    method Push(item: T) returns (ok: bool)
      requires Valid()
      modifies this`head, data
      ensures Valid() && ok == HasRoom(old(Contents())) && (ok <==> |old(Contents())| < 1023)
      ensures Contents() == if ok then old(Contents()) + [item] else old(Contents())
    {
      hide FromTail;
      AfterPush(data[..], tail, head, item);
      var nextHead := (head + 1) % RING_BUFFER_SIZE;
      if nextHead == tail {
        return false;
      }
      data[head] := item;
      head := nextHead;
      ok := true;
    }

    /** `ring_buffer_pop` */
    method Pop() returns (ok: bool, item: T)
      requires Valid()
      modifies this`tail
      ensures Valid() && ok == (old(Contents()) != [])
      ensures ok ==> old(Contents()) == [item] + Contents()
      ensures !ok ==> Contents() == old(Contents())
    {
      hide FromTail;
      AfterPop(data[..], tail, head);
      if tail == head {
        ok, item := false, *;
        return;
      }
      ok, item := true, data[tail];
      tail := (tail + 1) % RING_BUFFER_SIZE;
    }

    /** `ring_buffer_size` */
    method Size() returns (size: nat)
      requires Valid()
      ensures size == |Contents()|
    {
      HowMany(data[..], tail, head);
      size := (head - tail) % RING_BUFFER_SIZE;
    }
  }
}
