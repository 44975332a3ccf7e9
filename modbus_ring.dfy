/** The receive ring buffer of the Modbus slave (src/Peripherals/modbus.c):
    rx_buffer of RX_BUFFER_SIZE bytes with the indices rx_head (next slot
    the USART interrupt writes) and rx_tail (next slot the main loop reads),
    and the sticky overflow flag buffer_OVF. One slot always stays free, so
    head == tail means empty and head + 1 == tail (mod N) means full. */
module ModbusRing {

  /** Slot i of a ring of n slots, for 0 <= i < 2n: past the end it wraps
      to the start. */
  function Wrap(i: nat, n: nat): (r: nat)
    requires i < 2 * n
    ensures r < n && (r == i || r == i - n)
  {
    if i < n then i else i - n
  }

  /** The index after i in a ring of n slots, (i + 1) % n. */
  lemma NextIndex(i: nat, n: nat)
    requires i < n
    ensures (i + 1) % n == Wrap(i + 1, n)
  {
    if i + 1 < n {
      assert (i + 1) % n == i + 1;
    } else {
      assert i + 1 == n;
    }
  }

  /** How many bytes a ring of n slots holds between tail and head. */
  function Count(head: nat, tail: nat, n: nat): (r: nat)
    requires head < n && tail < n
    ensures r < n
  {
    if tail <= head then head - tail else n - tail + head
  }

  /** The count is (head - tail) mod n. */
  lemma CountIsMod(head: nat, tail: nat, n: nat)
    requires head < n && tail < n
    ensures Count(head, tail, n) == (head - tail) % n
  {
    if tail > head {
      assert head - tail == -1 * n + (n - tail + head);
    }
  }

  /** The queued bytes of a ring of |buf| slots, oldest first: the slots
      from tail up to (not including) head, wrapping at the end. */
  function RingContents(buf: seq<bv8>, head: nat, tail: nat): (r: seq<bv8>)
    requires head < |buf| && tail < |buf|
    ensures |r| == Count(head, tail, |buf|)
  {
    if tail <= head then buf[tail..head] else buf[tail..] + buf[..head]
  }

  /** The k-th oldest queued byte sits k slots after tail. */
  lemma RingContentsAt(buf: seq<bv8>, head: nat, tail: nat, k: nat)
    requires head < |buf| && tail < |buf| && k < Count(head, tail, |buf|)
    ensures RingContents(buf, head, tail)[k] == buf[Wrap(tail + k, |buf|)]
  {
  }

  /** The ring is full exactly when it holds N - 1 bytes: N - 1 is the usable
      capacity, and it can never hold more. */
  lemma RingFullIff(buf: seq<bv8>, head: nat, tail: nat)
    requires head < |buf| && tail < |buf|
    ensures (head + 1) % |buf| == tail <==> |RingContents(buf, head, tail)| == |buf| - 1
    ensures |RingContents(buf, head, tail)| <= |buf| - 1
  {
    NextIndex(head, |buf|);
  }

  /** The ring is empty exactly when head == tail. */
  lemma RingEmptyIff(buf: seq<bv8>, head: nat, tail: nat)
    requires head < |buf| && tail < |buf|
    ensures head == tail <==> RingContents(buf, head, tail) == []
  {
  }

  /** Writing the free slot at head and advancing head appends the byte. */
  lemma RingPush(buf: seq<bv8>, head: nat, tail: nat, b: bv8)
    requires head < |buf| && tail < |buf| && Wrap(head + 1, |buf|) != tail
    ensures RingContents(buf[head := b], Wrap(head + 1, |buf|), tail) == RingContents(buf, head, tail) + [b]
  {
    var n := |buf|;
    var old' := RingContents(buf, head, tail);
    var new' := RingContents(buf[head := b], Wrap(head + 1, n), tail);
    assert |new'| == |old'| + 1;
    forall k | 0 <= k < |new'|
      ensures new'[k] == (old' + [b])[k]
    {
      RingContentsAt(buf[head := b], Wrap(head + 1, n), tail, k);
      if k < |old'| {
        RingContentsAt(buf, head, tail, k);
        assert Wrap(tail + k, n) != head;
      } else {
        assert Wrap(tail + k, n) == head;
      }
    }
  }

  /** Advancing tail past a non-empty ring drops the oldest byte. */
  lemma RingPop(buf: seq<bv8>, head: nat, tail: nat)
    requires head < |buf| && tail < |buf| && head != tail
    ensures RingContents(buf, head, tail) != []
    ensures RingContents(buf, head, tail)[0] == buf[tail]
    ensures RingContents(buf, head, Wrap(tail + 1, |buf|)) == RingContents(buf, head, tail)[1..]
  {
    var n := |buf|;
    var old' := RingContents(buf, head, tail);
    var new' := RingContents(buf, head, Wrap(tail + 1, n));
    assert |new'| == |old'| - 1;
    forall k | 0 <= k < |new'|
      ensures new'[k] == old'[1..][k]
    {
      RingContentsAt(buf, head, Wrap(tail + 1, n), k);
      RingContentsAt(buf, head, tail, k + 1);
      assert Wrap(Wrap(tail + 1, n) + k, n) == Wrap(tail + (k + 1), n);
    }
  }

  /** The reference FIFO the ring implements: an arrival is queued when
      fewer than capacity bytes are waiting and dropped otherwise. */
  function Enqueue(q: seq<bv8>, capacity: nat, b: bv8): (r: seq<bv8>)
    ensures |q| < capacity ==> r == q + [b]
    ensures |q| >= capacity ==> r == q
  {
    if |q| < capacity then q + [b] else q
  }

  /** What happens at the ring, in the order it happens: a byte arriving at
      the USART interrupt, or the main loop calling MODBUS_RingBufferRead. */
  datatype Event = Arrive(b: bv8) | Read

  /** The state of the reference FIFO after a sequence of events: the bytes
      still queued and the bytes the reads returned, in the order returned. */
  datatype Trace = Trace(queued: seq<bv8>, delivered: seq<bv8>)

  function Run(q: seq<bv8>, capacity: nat, events: seq<Event>): (r: Trace)
    decreases |events|
  {
    if events == [] then Trace(q, [])
    else
      match events[0]
      case Arrive(b) => Run(Enqueue(q, capacity, b), capacity, events[1..])
      case Read =>
        if q == [] then Run(q, capacity, events[1..])
        else
          var rest := Run(q[1..], capacity, events[1..]);
          Trace(rest.queued, [q[0]] + rest.delivered)
  }

  /** The bytes the reference FIFO accepts over a sequence of events,
      in arrival order. */
  function Accepted(q: seq<bv8>, capacity: nat, events: seq<Event>): (r: seq<bv8>)
    decreases |events|
  {
    if events == [] then []
    else
      match events[0]
      case Arrive(b) =>
        (if |q| < capacity then [b] else []) + Accepted(Enqueue(q, capacity, b), capacity, events[1..])
      case Read => Accepted(if q == [] then q else q[1..], capacity, events[1..])
  }

  /** Every accepted byte is returned by a read, exactly once and in arrival
      order, or is still queued: the bytes read followed by the bytes still
      waiting are the bytes that were waiting followed by the accepted ones. */
  lemma {:induction false} RunIsFifo(q: seq<bv8>, capacity: nat, events: seq<Event>)
    ensures Run(q, capacity, events).delivered + Run(q, capacity, events).queued
         == q + Accepted(q, capacity, events)
    decreases |events|
  {
    if events != [] {
      match events[0]
      case Arrive(b) =>
        RunIsFifo(Enqueue(q, capacity, b), capacity, events[1..]);
      case Read =>
        if q == [] {
          RunIsFifo(q, capacity, events[1..]);
        } else {
          var rest := Run(q[1..], capacity, events[1..]);
          RunIsFifo(q[1..], capacity, events[1..]);
          assert q == [q[0]] + q[1..];
          assert ([q[0]] + rest.delivered) + rest.queued == [q[0]] + (rest.delivered + rest.queued);
        }
    }
  }

  /** The ring buffer and its overflow flag. rx_head and rx_tail are
      uint16_t, so N is at most 65536. */
  class RxRing {
    const size: nat
    const rxBuffer: array<bv8>
    var rxHead: nat
    var rxTail: nat
    var bufferOvf: bool

    ghost predicate Valid()
      reads this
    {
      rxBuffer.Length == size && 1 <= size <= 65536 && rxHead < size && rxTail < size
    }

    /** The bytes waiting to be read, oldest first. */
    ghost function Contents(): seq<bv8>
      reads this, rxBuffer
      requires Valid()
    {
      RingContents(rxBuffer[..], rxHead, rxTail)
    }

    /** The zero-initialised globals: an empty ring, no overflow. */
    constructor (n: nat)
      requires 1 <= n <= 65536
      ensures Valid() && fresh(rxBuffer) && size == n
      ensures rxHead == 0 && rxTail == 0 && !bufferOvf && Contents() == []
    {
      size := n;
      rxBuffer := new bv8[n](_ => 0);
      rxHead, rxTail, bufferOvf := 0, 0, false;
    }

    /** MODBUS_IRQHandler: when the receive-not-empty flag rxne is set, the
        byte data from the data register is queued, or dropped with
        buffer_OVF set when the ring is full. */
    method IrqHandler(rxne: bool, data: bv8)
      requires Valid()
      modifies this, rxBuffer
      ensures Valid()
      ensures !rxne ==> (rxHead == old(rxHead) && rxTail == old(rxTail)
                         && bufferOvf == old(bufferOvf) && Contents() == old(Contents()))
      ensures rxne ==> rxTail == old(rxTail)
      ensures rxne ==> Contents() == Enqueue(old(Contents()), size - 1, data)
      ensures rxne ==> bufferOvf == (old(bufferOvf) || |old(Contents())| == size - 1)
      ensures rxne && |old(Contents())| == size - 1 ==> rxHead == old(rxHead)
      ensures rxne && |old(Contents())| < size - 1 ==> rxHead == Wrap(old(rxHead) + 1, size)
    {
      if rxne {
        RingFullIff(rxBuffer[..], rxHead, rxTail);
        var nextHead := (rxHead + 1) % size;
        NextIndex(rxHead, size);
        if nextHead != rxTail {
          RingPush(rxBuffer[..], rxHead, rxTail, data);
          rxBuffer[rxHead] := data;
          rxHead := nextHead;
        } else {
          bufferOvf := true;
        }
      }
    }

    /** MODBUS_RingBufferRead: on an empty ring it returns -1 as a uint8_t
        (0xFF) and leaves the caller's byte as it was; otherwise it returns
        0, hands out the oldest byte and advances rx_tail by one mod N.
        `data` is the caller's byte before the call, `dataOut` after it. */
    method RingBufferRead(data: bv8) returns (status: bv8, dataOut: bv8)
      requires Valid()
      modifies this
      ensures Valid() && rxHead == old(rxHead) && bufferOvf == old(bufferOvf)
      ensures old(Contents()) == [] ==>
        status == 0xFF && dataOut == data && rxTail == old(rxTail) && Contents() == []
      ensures old(Contents()) != [] ==>
        status == 0 && dataOut == old(Contents())[0] && rxTail == Wrap(old(rxTail) + 1, size)
        && Contents() == old(Contents())[1..]
    {
      RingEmptyIff(rxBuffer[..], rxHead, rxTail);
      if rxTail == rxHead {
        return 0xFF, data;
      }
      RingPop(rxBuffer[..], rxHead, rxTail);
      dataOut := rxBuffer[rxTail];
      NextIndex(rxTail, size);
      rxTail := (rxTail + 1) % size;
      status := 0;
    }

    /** One event: the interrupt with a byte, or one read by the main loop;
        out holds the byte the read returned, if it returned one. */
    method ApplyEvent(e: Event) returns (out: seq<bv8>)
      requires Valid()
      modifies this, rxBuffer
      ensures Valid()
      ensures e.Arrive? ==> out == [] && Contents() == Enqueue(old(Contents()), size - 1, e.b)
      ensures e.Read? && old(Contents()) == [] ==> out == [] && Contents() == []
      ensures e.Read? && old(Contents()) != [] ==>
        out == [old(Contents())[0]] && Contents() == old(Contents())[1..]
    {
      out := [];
      match e {
        case Arrive(b) =>
          IrqHandler(true, b);
        case Read =>
          var status, byte := RingBufferRead(0);
          if status == 0 {
            out := [byte];
          }
      }
    }

    /** The interrupt and the main loop taking turns as the events say; the
        ring behaves as the reference FIFO of capacity N - 1. */
    method ApplyEvents(events: seq<Event>) returns (delivered: seq<bv8>)
      requires Valid()
      modifies this, rxBuffer
      ensures Valid()
      ensures delivered == Run(old(Contents()), size - 1, events).delivered
      ensures Contents() == Run(old(Contents()), size - 1, events).queued
      decreases |events|
    {
      if events == [] {
        return [];
      }
      RunFirst(Contents(), size - 1, events);
      var out := ApplyEvent(events[0]);
      var rest := ApplyEvents(events[1..]);
      delivered := out + rest;
    }
  }

  /** One event of Run. */
  lemma RunFirst(q: seq<bv8>, capacity: nat, events: seq<Event>)
    requires events != []
    ensures events[0].Arrive? ==>
      Run(q, capacity, events) == Run(Enqueue(q, capacity, events[0].b), capacity, events[1..])
    ensures events[0].Read? && q == [] ==>
      Run(q, capacity, events) == Run(q, capacity, events[1..])
    ensures events[0].Read? && q != [] ==>
      Run(q, capacity, events).queued == Run(q[1..], capacity, events[1..]).queued
      && Run(q, capacity, events).delivered == [q[0]] + Run(q[1..], capacity, events[1..]).delivered
  {
  }
}
