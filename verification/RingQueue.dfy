/** The ring of fixed-size slots behind the persistent queue: a header and an array of mails. */
module RingQueue {
  import opened Wrappers

  /** What the queue stores: the parsed headers and the body of one message. */
  datatype Mail = Mail(headers: seq<(string, string)>, headerCount: int, body: string)

  const PQ_MESSAGE_SIZE_REACHED_ERROR: int := -2000
  const PQ_MESSAGE_QUEUE_EMPTY_ERROR: int := -2001

  /** The mapped file: `pq_ref_shared` and the slots after it. */
  datatype Ring = Ring(writeOffset: int, readOffset: int, messageCount: int, messageMaxCount: int, slots: seq<Mail>)

  /** The slot `i` places after `base` in a ring of `max` slots. */
  function Wrap(base: int, i: nat, max: nat): (r: int)
    requires 0 <= base < max && i <= max
    ensures 0 <= r < max
    ensures r == (base + i) % max
  {
    WrapIsMod(base + i, max);
    if base + i < max then base + i else base + i - max
  }

  lemma WrapIsMod(n: nat, max: nat)
    requires n < 2 * max
    ensures n % max == if n < max then n else n - max
  {
    if n >= max {
      assert n == 1 * max + (n - max);
    }
  }

  /** The slots from `read` on hold `q`, and `write` is the first slot after it. */
  ghost predicate Layout(slots: seq<Mail>, read: int, write: int, q: seq<Mail>) {
    var max := |slots|;
    if max == 0 then read == 0 && write == 0 && q == []
    else
      && 0 <= read < max
      && |q| <= max
      && write == Wrap(read, |q|, max)
      && forall i :: 0 <= i < |q| ==> slots[Wrap(read, i, max)] == q[i]
  }

  /** The ring is at rest and holds `q`. */
  ghost predicate Stores(r: Ring, q: seq<Mail>) {
    && r.messageMaxCount == |r.slots|
    && r.messageCount == |q|
    && Layout(r.slots, r.readOffset, r.writeOffset, q)
  }

  lemma LayoutWrite(slots: seq<Mail>, read: int, write: int, q: seq<Mail>, m: Mail)
    requires Layout(slots, read, write, q) && |q| < |slots|
    ensures Layout(slots[write := m], read, write, q)
  {
  }

  lemma LayoutPush(slots: seq<Mail>, read: int, write: int, q: seq<Mail>, m: Mail)
    requires Layout(slots, read, write, q) && |q| < |slots| && slots[write] == m
    ensures Layout(slots, read, (write + 1) % |slots|, q + [m])
  {
    WrapIsMod(write + 1, |slots|);
  }

  lemma LayoutPop(slots: seq<Mail>, read: int, write: int, q: seq<Mail>)
    requires Layout(slots, read, write, q) && q != []
    ensures slots[read] == q[0]
    ensures Layout(slots, (read + 1) % |slots|, write, q[1..])
  {
    var max := |slots|;
    WrapIsMod(read + 1, max);
    var read' := (read + 1) % max;
    assert slots[Wrap(read, 0, max)] == q[0];
    forall i | 0 <= i < |q| - 1
      ensures slots[Wrap(read', i, max)] == q[1..][i]
    {
      assert Wrap(read', i, max) == Wrap(read, i + 1, max);
    }
  }

  /** A process's reference to the mapped queue, used by one process at a time. */
  class PqRef {
    var writeOffset: int
    var readOffset: int
    var messageCount: int
    const messageMaxCount: int
    const slots: array<Mail>

    ghost function Mapped(): Ring
      reads this, slots
    {
      Ring(writeOffset, readOffset, messageCount, messageMaxCount, slots[..])
    }

    /** The creating branch of `pq_init`: a zeroed header over `count` slots. */
    constructor (count: nat, blank: Mail)
      ensures fresh(slots) && messageMaxCount == count
      ensures Stores(Mapped(), [])
    {
      writeOffset, readOffset, messageCount, messageMaxCount := 0, 0, 0, count;
      slots := new Mail[count](_ => blank);
    }

    /** `pq_enqueue`, between its wait and its post. */
    method Enqueue(source: Mail, ghost q: seq<Mail>) returns (code: int)
      requires Stores(Mapped(), q)
      modifies this, slots
      ensures code == if |q| < messageMaxCount then 0 else -2000
      ensures Stores(Mapped(), if code == 0 then q + [source] else q)
      ensures code != 0 ==> Mapped() == old(Mapped())
    {
      if messageCount >= messageMaxCount {
        return PQ_MESSAGE_SIZE_REACHED_ERROR;
      }
      ghost var was := slots[..];
      slots[writeOffset] := source;
      assert slots[..] == was[writeOffset := source];
      LayoutWrite(was, readOffset, writeOffset, q, source);
      LayoutPush(slots[..], readOffset, writeOffset, q, source);
      writeOffset := (writeOffset + 1) % messageMaxCount;
      messageCount := messageCount + 1;
      return 0;
    }

    /** `pq_dequeue`, between its wait and its post. */
    method Dequeue(ghost q: seq<Mail>) returns (code: int, destination: Option<Mail>)
      requires Stores(Mapped(), q)
      modifies this
      ensures code == if q != [] then 0 else -2001
      ensures if code == 0 then destination == Some(q[0]) && Stores(Mapped(), q[1..])
              else destination == None && Mapped() == old(Mapped())
    {
      if messageCount <= 0 {
        return PQ_MESSAGE_QUEUE_EMPTY_ERROR, None;
      }
      LayoutPop(slots[..], readOffset, writeOffset, q);
      destination := Some(slots[readOffset]);
      readOffset := (readOffset + 1) % messageMaxCount;
      messageCount := messageCount - 1;
      code := 0;
    }
  }
}
