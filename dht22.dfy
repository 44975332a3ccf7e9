/** The DHT22 one-wire capture (src/Sensors/dht22.c): the edge interrupt
    DHT22_IRQHandler records the high time of every bit in pulses[],
    DHT22_decode_pulses turns the widths into bytes, and the part of
    DHT22_read after the wait decides on the reading. BIT_COUNT is the
    parameter bitCount; the values of DHT_NOT_READY, DHT_MEASURING,
    DHT_READY and DHT_ERROR are only told apart. TIM2 counts microseconds
    with ARR = 0xFFFF (src/Peripherals/timers.c:14), so the counter wraps
    from 0xFFFF to 0 and counts modulo 2^16. */
module Dht22 {
  import opened ModArith

  /** A uint8_t: a stored width, a decoded byte. */
  type Byte = x: int | 0 <= x < 256

  /** A reading of the 16-bit counter TIM2->CNT. */
  type Tick = x: int | 0 <= x < 0x10000

  /** The status and result codes of the driver. */
  datatype Code = NotReady | Measuring | Ready | Error

  // ---------------------------------------------------------------------
  // Pulse widths

  /** One count of TIM2 with ARR = 0xFFFF: up by one, from 0xFFFF back to
      0. */
  function NextCount(c: Tick): (r: Tick)
  {
    if c == 0xFFFF then 0 else c + 1
  }

  /** The counter k ticks after it read c. */
  function CountAfter(c: Tick, k: nat): (r: Tick)
    decreases k
  {
    if k == 0 then c else NextCount(CountAfter(c, k - 1))
  }

  /** The counter counts modulo 2^16. */
  lemma {:induction false} CountAfterIsMod(c: Tick, k: nat)
    ensures CountAfter(c, k) == (c + k) % 0x10000
    decreases k
  {
    if k == 0 {
      DivModUnique(c, 0x10000, 0, c);
    } else {
      CountAfterIsMod(c, k - 1);
      ModNext(c + k - 1, 0x10000);
    }
  }

  /** The high time of a pulse that rose at last and fell at now, in
      counter ticks. */
  function ElapsedTicks(now: Tick, last: Tick): (r: Tick)
  {
    (now - last) % 0x10000
  }

  /** ElapsedTicks is the one tick count below 2^16 that brings the counter
      from last to now. */
  lemma ElapsedTicksIff(now: Tick, last: Tick, k: nat)
    requires k < 0x10000
    ensures CountAfter(last, k) == now <==> k == ElapsedTicks(now, last)
  {
    CountAfterIsMod(last, k);
    if now >= last {
      DivModUnique(now - last, 0x10000, 0, now - last);
    } else {
      DivModUnique(now - last, 0x10000, -1, now - last + 0x10000);
    }
    if last + k < 0x10000 {
      DivModUnique(last + k, 0x10000, 0, last + k);
    } else {
      DivModUnique(last + k, 0x10000, 1, last + k - 0x10000);
    }
  }

  /** The width as DHT22_IRQHandler computes it: now - last_time, or
      0xFFFF - last_time + now once the counter has wrapped. */
  function PulseWidthAsWritten(now: Tick, last: Tick): (r: Tick)
  {
    if now >= last then now - last else 0xFFFF - last + now
  }

  /** Without a wrap both widths agree; across the wrap the handler's width
      is one tick short, because from 0xFFFF to 0 is one tick too. */
  lemma PulseWidthOffByOne(now: Tick, last: Tick)
    ensures now >= last ==> PulseWidthAsWritten(now, last) == ElapsedTicks(now, last)
    ensures now < last ==> PulseWidthAsWritten(now, last) + 1 == ElapsedTicks(now, last)
  {
    if now >= last {
      DivModUnique(now - last, 0x10000, 0, now - last);
    } else {
      DivModUnique(now - last, 0x10000, -1, now - last + 0x10000);
    }
  }

  /** The stored width: pulse_width assigned to the uint8_t pulses[index]. */
  function Truncate(w: Tick): (r: Byte)
    ensures w < 256 ==> r == w
  {
    w % 256
  }

  // ---------------------------------------------------------------------
  // Decoding

  /** The bit a high time encodes: 0 strictly between 20 and 32 ticks, 1
      otherwise, also for widths of 20 or less. */
  function BitOf(w: Byte): (r: int)
  {
    if w > 20 && w < 32 then 0 else 1
  }

  function Pow2(n: nat): (r: nat)
    decreases n
  {
    if n == 0 then 1 else 2 * Pow2(n - 1)
  }

  /** The byte the bits of ws make, first width in the most significant
      position: current_byte = (current_byte << 1) | bit per pulse. It
      fits in |ws| bits. */
  function PackBits(ws: seq<Byte>): (r: nat)
    ensures r < Pow2(|ws|)
    decreases |ws|
  {
    if ws == [] then 0 else 2 * PackBits(ws[..|ws| - 1]) + BitOf(ws[|ws| - 1])
  }

  /** Byte k of a capture: the widths pulses[8k+1] .. pulses[8k+8]. */
  function ByteAt(pulses: seq<Byte>, k: nat): (r: Byte)
    requires 8 * k + 9 <= |pulses|
  {
    assert Pow2(8) == 256;
    PackBits(pulses[8 * k + 1 .. 8 * k + 9])
  }

  /** The first n bytes of a capture. */
  function Decoded(pulses: seq<Byte>, n: nat): (r: seq<Byte>)
    requires 8 * n + 1 <= |pulses|
    ensures |r| == n
    ensures forall k :: 0 <= k < n ==> r[k] == ByteAt(pulses, k)
  {
    seq(n, k requires 0 <= k < n => ByteAt(pulses, k))
  }

  /** Packing a width after ws shifts the bits of ws up by one. */
  lemma PackBitsSnoc(ws: seq<Byte>, w: Byte)
    ensures PackBits(ws + [w]) == 2 * PackBits(ws) + BitOf(w)
  {
    assert (ws + [w])[..|ws|] == ws;
  }

  /** Widths that all encode 0 pack to 0. */
  lemma {:induction false} PackZeros(ws: seq<Byte>)
    requires forall i :: 0 <= i < |ws| ==> 20 < ws[i] < 32
    ensures PackBits(ws) == 0
    decreases |ws|
  {
    if ws != [] {
      PackZeros(ws[..|ws| - 1]);
    }
  }

  /** n one-bits, packed. */
  function Ones(n: nat): (r: nat)
    decreases n
  {
    if n == 0 then 0 else 2 * Ones(n - 1) + 1
  }

  /** Widths that all encode 1 pack to a run of one-bits. */
  lemma {:induction false} PackOnes(ws: seq<Byte>)
    requires forall i :: 0 <= i < |ws| ==> ws[i] <= 20 || ws[i] >= 32
    ensures PackBits(ws) == Ones(|ws|)
    decreases |ws|
  {
    if ws != [] {
      PackOnes(ws[..|ws| - 1]);
    }
  }

  /** A capture whose data pulses are all 26 ticks (a 0 bit of the sensor)
      decodes to zero bytes, one whose data pulses are all 70 ticks (a 1
      bit) to 0xFF bytes. */
  lemma UniformCaptures(pulses: seq<Byte>, n: nat)
    requires 8 * n + 1 <= |pulses|
    ensures (forall i :: 1 <= i < |pulses| ==> pulses[i] == 26) ==> Decoded(pulses, n) == seq(n, _ => 0)
    ensures (forall i :: 1 <= i < |pulses| ==> pulses[i] == 70) ==> Decoded(pulses, n) == seq(n, _ => 0xFF)
  {
    if forall i :: 1 <= i < |pulses| ==> pulses[i] == 26 {
      forall k | 0 <= k < n
        ensures ByteAt(pulses, k) == 0
      {
        var ws := pulses[8 * k + 1 .. 8 * k + 9];
        assert forall i :: 0 <= i < |ws| ==> ws[i] == pulses[8 * k + 1 + i];
        PackZeros(ws);
      }
    }
    if forall i :: 1 <= i < |pulses| ==> pulses[i] == 70 {
      forall k | 0 <= k < n
        ensures ByteAt(pulses, k) == 0xFF
      {
        var ws := pulses[8 * k + 1 .. 8 * k + 9];
        assert forall i :: 0 <= i < |ws| ==> ws[i] == pulses[8 * k + 1 + i];
        PackOnes(ws);
        assert Ones(8) == 255;
      }
    }
  }

  /** The response pulse pulses[0] takes no part in the decoded bytes. */
  lemma ResponsePulseIgnored(pulses: seq<Byte>, n: nat, w: Byte)
    requires 8 * n + 1 <= |pulses|
    ensures Decoded(pulses[0 := w], n) == Decoded(pulses, n)
  {
    forall k | 0 <= k < n
      ensures ByteAt(pulses[0 := w], k) == ByteAt(pulses, k)
    {
      assert pulses[0 := w][8 * k + 1 .. 8 * k + 9] == pulses[8 * k + 1 .. 8 * k + 9];
    }
  }

  /** Widths after the last whole byte are discarded: the bytes depend on
      pulses[1 .. 8n] only. */
  lemma TrailingPulsesIgnored(pulses: seq<Byte>, n: nat, extra: seq<Byte>)
    requires 8 * n + 1 <= |pulses|
    ensures Decoded(pulses + extra, n) == Decoded(pulses, n)
  {
    forall k | 0 <= k < n
      ensures ByteAt(pulses + extra, k) == ByteAt(pulses, k)
    {
      assert (pulses + extra)[8 * k + 1 .. 8 * k + 9] == pulses[8 * k + 1 .. 8 * k + 9];
    }
  }

  /** The widths 8j+1 .. bit of the byte being assembled, one more. */
  lemma PackStep(p: seq<Byte>, base: nat, bit: nat)
    requires 1 <= base <= bit < |p|
    ensures PackBits(p[base .. bit + 1]) == 2 * PackBits(p[base .. bit]) + BitOf(p[bit])
  {
    assert p[base .. bit + 1] == p[base .. bit] + [p[bit]];
    PackBitsSnoc(p[base .. bit], p[bit]);
  }

  /** The decode loop before the width at bit: j whole bytes are stored
      over orig, and current holds the pos widths of byte j read so far. */
  ghost predicate DecodedUpTo(p: seq<Byte>, bytes: seq<Byte>, orig: seq<Byte>,
                              bit: nat, j: nat, pos: nat, current: nat)
  {
    bit == 8 * j + pos + 1 && pos < 8 && bit <= |p| && j <= |bytes| == |orig|
    && current == PackBits(p[8 * j + 1 .. bit])
    && (forall k :: 0 <= k < j ==> bytes[k] == ByteAt(p, k))
    && bytes[j..] == orig[j..]
  }

  /** DHT22_decode_pulses, reading pulses[1 .. BIT_COUNT - 1]: every whole
      group of eight widths after the response pulse is packed into the
      next byte of byteList, and the bytes after them are left alone. */
  method DecodePulses(pulses: array<Byte>, byteList: array<Byte>)
    requires pulses.Length >= 1 && (pulses.Length - 1) / 8 <= byteList.Length && pulses != byteList
    modifies byteList
    ensures byteList[..(pulses.Length - 1) / 8] == Decoded(pulses[..], (pulses.Length - 1) / 8)
    ensures byteList[(pulses.Length - 1) / 8..] == old(byteList[(pulses.Length - 1) / 8..])
  {
    var current: nat := 0;
    ghost var j, pos := 0, 0;
    SplitBit(pulses.Length, (pulses.Length - 1) / 8, (pulses.Length - 1) % 8);
    for bit := 1 to pulses.Length
      invariant DecodedUpTo(pulses[..], byteList[..], old(byteList[..]), bit, j, pos, current)
    {
      current, j, pos := DecodeBit(pulses, byteList, old(byteList[..]), bit, j, pos, current);
    }
    SplitBit(pulses.Length, j, pos);
  }

  /** One pass of the DHT22_decode_pulses loop: shift in the bit of
      pulses[bit] and, after the eighth bit of a byte, store the byte. */
  method DecodeBit(pulses: array<Byte>, byteList: array<Byte>, ghost orig: seq<Byte>,
                   bit: nat, ghost j: nat, ghost pos: nat, current: nat)
    returns (next: nat, ghost j': nat, ghost pos': nat)
    requires pulses != byteList && bit < pulses.Length && (pulses.Length - 1) / 8 <= byteList.Length
    requires DecodedUpTo(pulses[..], byteList[..], orig, bit, j, pos, current)
    modifies byteList
    ensures DecodedUpTo(pulses[..], byteList[..], orig, bit + 1, j', pos', next)
  {
    PackStep(pulses[..], 8 * j + 1, bit);
    SplitBit(bit, j, pos);
    SplitBit(pulses.Length, (pulses.Length - 1) / 8, (pulses.Length - 1) % 8);
    if pulses[bit] > 20 && pulses[bit] < 32 {
      next := 2 * current + 0;
    } else {
      next := 2 * current + 1;
    }
    if bit % 8 == 0 {
      assert next == ByteAt(pulses[..], j);
      byteList[bit / 8 - 1] := next;
      next := 0;
      j', pos' := j + 1, 0;
    } else {
      j', pos' := j, pos + 1;
    }
  }

  /** bit = 8j + pos + 1 is the (pos+1)-th width of byte j. */
  lemma SplitBit(bit: int, j: nat, pos: nat)
    requires bit == 8 * j + pos + 1 && pos < 8
    ensures (bit % 8 == 0) == (pos == 7)
    ensures pos == 7 ==> bit / 8 - 1 == j
    ensures (bit - 1) / 8 == j
  {
  }

  /** The decode loop as written runs bit = 1 .. BIT_COUNT and so reads
      pulses[BIT_COUNT], one past the array of BIT_COUNT widths: it needs
      a capture of BIT_COUNT + 1 widths and packs BIT_COUNT / 8 bytes. */
  function DecodedAsWritten(pulses: seq<Byte>, bitCount: nat): (r: seq<Byte>)
    requires |pulses| >= bitCount + 1
    ensures |r| == bitCount / 8
  {
    Decoded(pulses, bitCount / 8)
  }

  /** With BIT_COUNT = 40 the last bit of the checksum byte comes from the
      byte after pulses[]: two captures that agree on all their 40 widths
      decode to different checksums. */
  lemma AsWrittenReadsPastCapture(pulses: seq<Byte>)
    requires |pulses| == 40
    ensures DecodedAsWritten(pulses + [26], 40)[4] != DecodedAsWritten(pulses + [70], 40)[4]
  {
    var zero, one := pulses + [26], pulses + [70];
    assert zero[33 .. 41] == pulses[33 .. 40] + [26];
    assert one[33 .. 41] == pulses[33 .. 40] + [70];
    PackBitsSnoc(pulses[33 .. 40], 26);
    PackBitsSnoc(pulses[33 .. 40], 70);
  }

  /** When BIT_COUNT is not a multiple of 8 the width read past the array
      lands in a byte that is never stored, and the loop as written packs
      the same bytes as DecodePulses, which stops at pulses[BIT_COUNT - 1]. */
  lemma AsWrittenAgreesOffByteBoundary(pulses: seq<Byte>, w: Byte)
    requires |pulses| % 8 != 0
    ensures DecodedAsWritten(pulses + [w], |pulses|) == Decoded(pulses, (|pulses| - 1) / 8)
  {
    assert |pulses| / 8 == (|pulses| - 1) / 8;
    TrailingPulsesIgnored(pulses, |pulses| / 8, [w]);
  }

  // ---------------------------------------------------------------------
  // The DHT22_read decision

  /** The checksum of DHT22_read: the low 8 bits of the sum of the four data
      bytes. */
  function Checksum(b0: Byte, b1: Byte, b2: Byte, b3: Byte): (r: Byte)
  {
    (b0 + b1 + b2 + b3) % 256
  }

  /** byte_list after the decode: the decoded bytes, then zeros. */
  function ByteList(pulses: seq<Byte>): (r: seq<Byte>)
    requires 1 <= |pulses| && (|pulses| - 1) / 8 <= 5
    ensures |r| == 5
    ensures r[..(|pulses| - 1) / 8] == Decoded(pulses, (|pulses| - 1) / 8)
    ensures forall k :: (|pulses| - 1) / 8 <= k < 5 ==> r[k] == 0
  {
    var n := (|pulses| - 1) / 8;
    Decoded(pulses, n) + seq(5 - n, _ => 0)
  }

  /** Whether the fifth byte is the checksum of the first four. */
  predicate ChecksumMatches(bytes: seq<Byte>)
    requires |bytes| == 5
  {
    Checksum(bytes[0], bytes[1], bytes[2], bytes[3]) == bytes[4]
  }

  // ---------------------------------------------------------------------
  // The capture state

  /** What the edge interrupt keeps between calls: index and last_time,
      dht_status and the widths in pulses[]. */
  datatype CaptureState = CaptureState(index: nat, lastTime: Tick, status: Code, pulses: seq<Byte>)

  /** The width a falling edge at now stores after a rise at last. */
  function StoredWidth(now: Tick, last: Tick): (r: Byte)
  {
    Truncate(ElapsedTicks(now, last))
  }

  /** The stored width is the handler's own uint8_t width whenever the
      counter did not wrap during the pulse, and one more (mod 256) when
      it did. */
  lemma StoredWidthAsWritten(now: Tick, last: Tick)
    ensures now >= last ==> StoredWidth(now, last) == Truncate(PulseWidthAsWritten(now, last))
    ensures now < last ==> StoredWidth(now, last) == (Truncate(PulseWidthAsWritten(now, last)) + 1) % 256
  {
    PulseWidthOffByOne(now, last);
    if now < last {
      var w := PulseWidthAsWritten(now, last);
      DivModUnique(w, 256, w / 256, w % 256);
      if w % 256 == 255 {
        DivModUnique(w + 1, 256, w / 256 + 1, 0);
      } else {
        DivModUnique(w + 1, 256, w / 256, w % 256 + 1);
      }
    }
  }

  /** One DHT22_IRQHandler call with BIT_COUNT = n. */
  function Step(s: CaptureState, n: nat, now: Tick, rising: bool): (r: CaptureState)
    requires s.index < n == |s.pulses|
    ensures r.index < n == |r.pulses|
    ensures rising ==> r == s.(lastTime := now, status := Measuring)
    ensures !rising ==> r.lastTime == s.lastTime && r.pulses == s.pulses[s.index := StoredWidth(now, s.lastTime)]
    ensures !rising ==> (r.status == Ready <==> s.index + 1 == n)
    ensures !rising && s.index + 1 < n ==> r.index == s.index + 1 && r.status == Measuring
    ensures !rising && s.index + 1 == n ==> r.index == 0
  {
    if rising then s.(lastTime := now, status := Measuring)
    else
      var i := s.index + 1;
      var p := s.pulses[s.index := StoredWidth(now, s.lastTime)];
      if i >= n then CaptureState(0, s.lastTime, Ready, p) else CaptureState(i, s.lastTime, Measuring, p)
  }

  /** A high pulse on the line: a rising edge at rise, then a falling edge
      at fall. */
  function Pulse(s: CaptureState, n: nat, rise: Tick, fall: Tick): (r: CaptureState)
    requires s.index < n == |s.pulses|
    ensures r.index < n == |r.pulses|
  {
    Step(Step(s, n, rise, true), n, fall, false)
  }

  /** The state after a train of high pulses, given by their edge times. */
  function Train(s: CaptureState, n: nat, edges: seq<(Tick, Tick)>): (r: CaptureState)
    requires s.index < n == |s.pulses|
    ensures r.index < n == |r.pulses|
    decreases |edges|
  {
    if edges == [] then s
    else
      var last := edges[|edges| - 1];
      Pulse(Train(s, n, edges[..|edges| - 1]), n, last.0, last.1)
  }

  /** The widths of a pulse train. */
  function Widths(edges: seq<(Tick, Tick)>): (r: seq<Byte>)
    ensures |r| == |edges|
  {
    seq(|edges|, i requires 0 <= i < |edges| => StoredWidth(edges[i].1, edges[i].0))
  }

  /** One pulse that does not complete the capture moves index on by one. */
  lemma PulseMidway(s: CaptureState, n: nat, rise: Tick, fall: Tick)
    requires s.index + 1 < n == |s.pulses|
    ensures Pulse(s, n, rise, fall)
         == CaptureState(s.index + 1, rise, Measuring, s.pulses[s.index := StoredWidth(fall, rise)])
  {
  }

  /** The pulse that fills the last slot makes the capture READY. */
  lemma PulseLast(s: CaptureState, n: nat, rise: Tick, fall: Tick)
    requires s.index + 1 == n == |s.pulses|
    ensures Pulse(s, n, rise, fall)
         == CaptureState(0, rise, Ready, s.pulses[s.index := StoredWidth(fall, rise)])
  {
  }

  /** Widths of a train are those of its prefix followed by the last one. */
  lemma WidthsSnoc(edges: seq<(Tick, Tick)>)
    requires edges != []
    ensures Widths(edges)
         == Widths(edges[..|edges| - 1]) + [StoredWidth(edges[|edges| - 1].1, edges[|edges| - 1].0)]
  {
  }

  /** Writing w over the first slot after a prefix extends the prefix. */
  lemma OverwriteNext(prefix: seq<Byte>, w: Byte, rest: seq<Byte>)
    requires rest != []
    ensures (prefix + rest)[|prefix| := w] == prefix + [w] + rest[1..]
  {
  }

  /** Fewer than n pulses from index 0 fill pulses[] from the start, one
      slot per pulse, and keep measuring. */
  lemma {:induction false} TrainPrefix(s: CaptureState, n: nat, edges: seq<(Tick, Tick)>)
    requires s.index == 0 && |s.pulses| == n && |edges| < n
    ensures Train(s, n, edges).index == |edges|
    ensures Train(s, n, edges).pulses == Widths(edges) + s.pulses[|edges|..]
    ensures edges != [] ==> Train(s, n, edges).status == Measuring
    decreases |edges|
  {
    if edges != [] {
      var m := |edges| - 1;
      TrainPrefix(s, n, edges[..m]);
      var before := Train(s, n, edges[..m]);
      PulseMidway(before, n, edges[m].0, edges[m].1);
      WidthsSnoc(edges);
      OverwriteNext(Widths(edges[..m]), StoredWidth(edges[m].1, edges[m].0), s.pulses[m..]);
      assert s.pulses[m..][1..] == s.pulses[|edges|..];
    }
  }

  /** BIT_COUNT high pulses from index 0 record exactly their widths, in
      order, and leave the capture READY with index back at 0. */
  lemma TrainCaptures(s: CaptureState, n: nat, edges: seq<(Tick, Tick)>)
    requires s.index == 0 && |s.pulses| == n && |edges| == n >= 1
    ensures Train(s, n, edges) == CaptureState(0, edges[n - 1].0, Ready, Widths(edges))
  {
    var m := n - 1;
    TrainPrefix(s, n, edges[..m]);
    var before := Train(s, n, edges[..m]);
    PulseLast(before, n, edges[m].0, edges[m].1);
    WidthsSnoc(edges);
    OverwriteNext(Widths(edges[..m]), StoredWidth(edges[m].1, edges[m].0), s.pulses[m..]);
  }

  /** The state the edge interrupt keeps: the static index and last_time of
      DHT22_IRQHandler, dht_status and the pulses[] array of BIT_COUNT
      widths. */
  class Capture {
    const bitCount: nat
    const pulses: array<Byte>
    var index: nat
    var lastTime: Tick
    var status: Code

    /** index is a uint8_t below BIT_COUNT, so BIT_COUNT <= 255 keeps
        index++ from wrapping. */
    ghost predicate Valid()
      reads this
    {
      pulses.Length == bitCount && 1 <= bitCount <= 255 && index < bitCount
    }

    ghost function State(): (r: CaptureState)
      reads this, pulses
    {
      CaptureState(index, lastTime, status, pulses[..])
    }

    /** The zero-initialised statics. */
    constructor (n: nat, initial: Code)
      requires 1 <= n <= 255
      ensures Valid() && bitCount == n && fresh(pulses)
      ensures index == 0 && lastTime == 0 && status == initial && pulses[..] == seq(n, _ => 0)
    {
      bitCount := n;
      pulses := new Byte[n](_ => 0);
      index := 0;
      lastTime := 0;
      status := initial;
    }

    /** DHT22_IRQHandler with TIM2->CNT = now and the line level rising
        (true on a rising edge). A rising edge notes the time; a falling
        edge stores the high time just ended and moves index on; after
        the last width the capture is READY and index is back at 0. The
        width is the counter distance ElapsedTicks (the handler's own
        width is PulseWidthAsWritten, one tick short across a wrap). */
    method Edge(now: Tick, rising: bool)
      requires Valid()
      modifies this, pulses
      ensures Valid() && State() == Step(old(State()), bitCount, now, rising)
    {
      status := Measuring;
      if rising {
        lastTime := now;
      } else {
        var pulseWidth := ElapsedTicks(now, lastTime);
        pulses[index] := Truncate(pulseWidth);
        index := index + 1;
      }
      if index >= bitCount {
        index := 0;
        status := Ready;
      }
    }

    /** DHT22_read from line 61 on, once the wait has ended: on READY, the
        status goes back to NOT_READY, the capture is decoded and the four
        data bytes are copied to reading. checksumOk is the condition of
        the "Invalid checksum" message; the result is READY either way.
        Any other status gives DHT_ERROR and changes nothing. */
    method FinishRead(reading: array<Byte>) returns (result: Code, checksumOk: bool)
      requires Valid() && reading.Length >= 4 && reading != pulses && (bitCount - 1) / 8 <= 5
      modifies this, reading
      ensures Valid() && index == old(index) && lastTime == old(lastTime)
      ensures old(status) == Ready ==>
        result == Ready && status == NotReady
        && reading[..4] == ByteList(pulses[..])[..4] && reading[4..] == old(reading[4..])
        && checksumOk == ChecksumMatches(ByteList(pulses[..]))
      ensures old(status) != Ready ==>
        result == Error && status == old(status) && reading[..] == old(reading[..])
    {
      if status == Ready {
        status := NotReady;
        var byteList := DecodeCapture();
        var expected := Checksum(byteList[0], byteList[1], byteList[2], byteList[3]);
        checksumOk := expected == byteList[4];
        reading[0] := byteList[0];
        reading[1] := byteList[1];
        reading[2] := byteList[2];
        reading[3] := byteList[3];
        assert reading[..4] == byteList[..4];
        return Ready, checksumOk;
      }
      return Error, false;
    }

    /** The byte_list of DHT22_read, zero-initialised and then filled by
        DHT22_decode_pulses from the capture. */
    method DecodeCapture() returns (byteList: array<Byte>)
      requires Valid() && (bitCount - 1) / 8 <= 5
      ensures fresh(byteList) && byteList[..] == ByteList(pulses[..])
    {
      byteList := new Byte[5](_ => 0);
      DecodePulses(pulses, byteList);
      assert byteList[..] == byteList[..(bitCount - 1) / 8] + byteList[(bitCount - 1) / 8..];
    }
  }

  // ---------------------------------------------------------------------
  // Findings, as concrete inputs

  /** A 0 bit of 21 ticks whose rising edge is at 0xFFF0 and falling edge
      at 0x0005: the handler's width is 20, which decodes as 1; the
      counter distance is 21, which decodes as 0. */
  lemma WrapFlipsBit()
    ensures PulseWidthAsWritten(0x0005, 0xFFF0) == 20
    ensures ElapsedTicks(0x0005, 0xFFF0) == 21
    ensures BitOf(Truncate(PulseWidthAsWritten(0x0005, 0xFFF0))) == 1
    ensures BitOf(Truncate(ElapsedTicks(0x0005, 0xFFF0))) == 0
  {
  }
}
