/**
 The bounded message queue of an IPC port: a circular array of 16 slots with a head and a
 tail index, of which one slot always stays empty.
 */
module MessageRing {

  const SLOTS: nat := 16

  datatype Message = Message(sender: int, receiver: int, kind: nat, len: nat, data: seq<int>)

  /** k modulo the ring size, for k below twice that size. */
  function Wrap(k: nat): (w: nat)
    requires k < 2 * SLOTS
    ensures w < SLOTS && w == k % SLOTS
  {
    if k < SLOTS then k else k - SLOTS
  }

  datatype Ring = Ring(slots: seq<Message>, head: nat, tail: nat) {
    predicate Valid() {
      |slots| == SLOTS && head < SLOTS && tail < SLOTS
    }

    predicate Empty() {
      head == tail
    }

    predicate Full() {
      (tail + 1) % SLOTS == head
    }

    function Count(): (n: nat)
      requires Valid()
      ensures n < SLOTS
    {
      if tail >= head then tail - head else tail + SLOTS - head
    }

    /** The unread messages, oldest first. */
    function Contents(): (q: seq<Message>)
      requires Valid()
      ensures |q| == Count()
    {
      seq(Count(), i requires 0 <= i < Count() => slots[Wrap(head + i)])
    }

    function Push(m: Message): Ring
      requires Valid()
    {
      Ring(slots[tail := m], head, Wrap(tail + 1))
    }

    function Pop(): Ring
      requires Valid()
    {
      Ring(slots, Wrap(head + 1), tail)
    }
  }

  /** An enqueue that does not find the ring full appends, and overwrites no unread slot. */
  lemma PushAppends(r: Ring, m: Message)
    requires r.Valid() && !r.Full()
    ensures r.Push(m).Valid() && r.Push(m).Contents() == r.Contents() + [m]
  {
    var q, q' := r.Contents(), r.Push(m).Contents();
    forall i | 0 <= i < |q| ensures q'[i] == q[i] {
      assert Wrap(r.head + i) != r.tail;
    }
    assert Wrap(r.head + |q|) == r.tail;
  }

  /** A dequeue that does not find the ring empty returns and removes the oldest message. */
  lemma PopTakesFirst(r: Ring)
    requires r.Valid() && !r.Empty()
    ensures r.Contents() == [r.slots[r.head]] + r.Pop().Contents()
    ensures r.Pop().Valid() && !r.Pop().Full()
  {
    var q, q' := r.Contents(), r.Pop().Contents();
    assert |q| == |q'| + 1;
    assert q[0] == r.slots[Wrap(r.head)];
    forall i | 0 <= i < |q'| ensures q'[i] == q[i + 1] {
      assert Wrap(r.Pop().head + i) == Wrap(r.head + (i + 1));
    }
  }

  /** The ring holds at most 15 messages; empty and full are told apart by the indices alone. */
  lemma CountBounds(r: Ring)
    requires r.Valid()
    ensures |r.Contents()| <= SLOTS - 1
    ensures r.Empty() <==> r.Contents() == []
    ensures r.Full() <==> |r.Contents()| == SLOTS - 1
  {
  }
}
