/** The receive side of the Modbus RTU slave (src/Peripherals/modbus.c):
    the frame assembler MODBUS_BuildFrame, the trailer check MODBUS_VerifyCRC,
    the address filter MODBUS_CheckAddress and the dispatcher
    MODBUS_ProcessFrame / MODBUS_ProcessValidFrame. MODBUS_FRAME_SIZE (F)
    and the slave table are parameters; F = 8 is a Read Input Registers
    request (address, function 0x04, two register words, CRC). */
module ModbusSlave {
  import opened ModbusCrc
  import opened ModbusRing
  import opened ModArith

  /** MODBUS_Status: the results of the address and the CRC checks. */
  datatype Status = AddrValid | AddrInvalid | CrcValid | CrcInvalid

  /** Where one pass of MODBUS_ProcessFrame ends: no complete frame yet,
      MODBUS_ProcessInvalidFrame (address not served), the checksum error of
      MODBUS_ProcessValidFrame, or the point where MODBUS_ReadSensor would
      build the response. */
  datatype Outcome = NoFrame | InvalidAddress | ChecksumError | ValidRequest

  /** The slave table MODBUS_Slaves: the LMT84LP, NSL19M51 and DHT22
      addresses. */
  const DefaultSlaves: seq<bv8> := [0x01, 0x04, 0x06]

  predicate StrictlyAscending(s: seq<bv8>)
  {
    forall i, j :: 0 <= i < j < |s| ==> s[i] < s[j]
  }

  /** The table is in the order its declaration demands, lower addresses
      first, so in particular no address is listed twice. */
  lemma DefaultSlavesAscending()
    ensures StrictlyAscending(DefaultSlaves)
    ensures forall a: bv8 :: a in DefaultSlaves <==> a == 0x01 || a == 0x04 || a == 0x06
  {
  }

  /** MODBUS_CheckAddress: a linear scan of the slave table. */
  method CheckAddress(slaves: seq<bv8>, address: bv8) returns (status: Status)
    ensures status == AddrValid || status == AddrInvalid
    ensures status == AddrValid <==> address in slaves
  {
    for i := 0 to |slaves|
      invariant address !in slaves[..i]
    {
      if slaves[i] == address {
        return AddrValid;
      }
    }
    assert slaves[..|slaves|] == slaves;
    return AddrInvalid;
  }

  /** The last two bytes of f are crc, low byte first. */
  predicate EndsWithCrc(f: seq<bv8>, crc: bv16)
    requires |f| >= 2
  {
    f[|f| - 2] == (crc & 0xFF) as bv8 && f[|f| - 1] == (crc >> 8) as bv8
  }

  /** The trailer rule of MODBUS_VerifyCRC: the last two bytes of the frame
      are the CRC-16 of the bytes before them, low byte first. */
  predicate TrailerMatches(f: seq<bv8>)
    requires |f| >= 2
  {
    EndsWithCrc(f, Crc16Of(f[..|f| - 2]))
  }

  /** Two bytes end a frame with crc exactly when they are its trailer. */
  lemma EndsWithCrcIff(body: seq<bv8>, t: seq<bv8>, crc: bv16)
    requires |t| == 2
    ensures EndsWithCrc(body + t, crc) <==> t == CrcTrailer(crc)
  {
    var f := body + t;
    assert f[|f| - 2] == t[0] && f[|f| - 1] == t[1];
    assert t == [t[0], t[1]];
  }

  /** A frame passes the trailer check exactly when its last two bytes are
      the CRC trailer of its body: appending the trailer always passes, and
      no other two bytes do. */
  lemma TrailerMatchesIff(body: seq<bv8>, t: seq<bv8>)
    requires |t| == 2
    ensures TrailerMatches(body + t) <==> t == CrcTrailer(Crc16Of(body))
  {
    assert (body + t)[..|body + t| - 2] == body;
    EndsWithCrcIff(body, t, Crc16Of(body));
  }

  /** The two compares of MODBUS_VerifyCRC decide the trailer rule. */
  lemma TrailerCheck(f: seq<bv8>, body: seq<bv8>, crc: bv16)
    requires |f| >= 2 && body == f[..|f| - 2]
    requires crc == Crc16Of(body)
    ensures TrailerMatches(f) <==> (crc >> 8) as bv8 == f[|f| - 1] && (crc & 0xFF) as bv8 == f[|f| - 2]
  {
  }

  /** MODBUS_VerifyCRC on the F = frame.Length bytes of the frame. The local
      names CRC_lsb and CRC_msb of the source are swapped, but the compare is
      low byte at F-2, high byte at F-1. */
  method VerifyCrc(frame: array<bv8>) returns (status: Status)
    requires frame.Length >= 2
    ensures status == CrcValid || status == CrcInvalid
    ensures status == CrcValid <==> TrailerMatches(frame[..])
  {
    ghost var f := frame[..];
    var last, secondLast := frame[frame.Length - 1], frame[frame.Length - 2];
    var crc := Crc16(frame, frame.Length - 2);
    TrailerCheck(f, frame[..frame.Length - 2], crc);
    var lastIsHigh := (crc >> 8) as bv8 == last;
    var secondLastIsLow := (crc & 0xFF) as bv8 == secondLast;
    if lastIsHigh && secondLastIsLow {
      return CrcValid;
    }
    return CrcInvalid;
  }

  /** The decision MODBUS_ProcessFrame takes on the frame it holds: the CRC
      is looked at only once the address is known to be served. */
  function Dispatch(ready: bool, f: seq<bv8>, slaves: seq<bv8>): (r: Outcome)
    requires |f| >= 2
    ensures r == NoFrame <==> !ready
    ensures r == InvalidAddress <==> ready && f[0] !in slaves
    ensures r == ChecksumError ==> f[0] in slaves && !TrailerMatches(f)
    ensures r == ValidRequest <==> ready && f[0] in slaves && TrailerMatches(f)
  {
    if !ready then NoFrame
    else if f[0] !in slaves then InvalidAddress
    else if !TrailerMatches(f) then ChecksumError
    else ValidRequest
  }

  /** A request the master builds for a served address, with the CRC trailer
      appended, reaches the valid path. */
  lemma WellFormedRequestAccepted(body: seq<bv8>, slaves: seq<bv8>)
    requires |body| >= 1 && body[0] in slaves
    ensures Dispatch(true, body + CrcTrailer(Crc16Of(body)), slaves) == ValidRequest
  {
    TrailerMatchesIff(body, CrcTrailer(Crc16Of(body)));
  }

  /** Changing either trailer byte of a well-formed request to anything else
      gives a checksum error. */
  lemma BadTrailerRejected(body: seq<bv8>, t: seq<bv8>, slaves: seq<bv8>)
    requires |body| >= 1 && body[0] in slaves && |t| == 2
    requires t != CrcTrailer(Crc16Of(body))
    ensures Dispatch(true, body + t, slaves) == ChecksumError
  {
    TrailerMatchesIff(body, t);
  }

  /** The slot after i in a frame of n bytes: frame_index++, and back to
      0 once it reaches MODBUS_FRAME_SIZE. */
  function NextSlot(i: nat, n: nat): (r: nat)
    requires i < n
    ensures r < n
  {
    if i + 1 >= n then 0 else i + 1
  }

  /** The cursor after k bytes stored from slot idx. */
  function Cursor(idx: nat, k: nat, n: nat): (r: nat)
    requires idx < n
    ensures r < n
    decreases k
  {
    if k == 0 then idx else NextSlot(Cursor(idx, k - 1, n), n)
  }

  /** The cursor moves on by the number of bytes stored, modulo F. */
  lemma {:induction false} CursorIsMod(idx: nat, k: nat, n: nat)
    requires idx < n
    ensures Cursor(idx, k, n) == (idx + k) % n
    decreases k
  {
    if k == 0 {
      DivModUnique(idx, n, 0, idx);
    } else {
      var x := idx + k - 1;
      CursorIsMod(idx, k - 1, n);
      NextSlotIsMod(Cursor(idx, k - 1, n), x, n);
      assert x + 1 == idx + k;
    }
  }

  /** One cursor step from x % n is (x + 1) % n. */
  lemma NextSlotIsMod(c: nat, x: nat, n: nat)
    requires c < n && c == x % n
    ensures NextSlot(c, n) == (x + 1) % n
  {
    ModNext(x, n);
  }

  /** Until the end of the frame is reached the cursor just counts. */
  lemma {:induction false} CursorNoWrap(idx: nat, k: nat, n: nat)
    requires idx + k < n
    ensures Cursor(idx, k, n) == idx + k
    decreases k
  {
    if k > 0 {
      CursorNoWrap(idx, k - 1, n);
    }
  }

  /** Moving the cursor j + m slots is moving it j slots, then m. */
  lemma {:induction false} CursorAppend(idx: nat, j: nat, m: nat, n: nat)
    requires idx < n
    ensures Cursor(idx, j + m, n) == Cursor(Cursor(idx, j, n), m, n)
    decreases m
  {
    if m > 0 {
      CursorAppend(idx, j, m - 1, n);
    }
  }

  /** The frame after the bytes data are stored from slot idx on, one slot
      per byte, the cursor wrapping to slot 0 after the last slot. */
  function Deposit(frame: seq<bv8>, idx: nat, data: seq<bv8>): (r: seq<bv8>)
    requires idx < |frame|
    ensures |r| == |frame|
    decreases |data|
  {
    if data == [] then frame
    else
      var m := |data| - 1;
      Deposit(frame, idx, data[..m])[Cursor(idx, m, |frame|) := data[m]]
  }

  /** Whether frame_ready is raised after k bytes are stored from slot idx,
      starting from ready: it is raised whenever a byte lands in the last
      slot. */
  ghost function ReadyAfter(ready: bool, idx: nat, k: nat, n: nat): (r: bool)
    requires idx < n
    decreases k
  {
    if k == 0 then ready
    else ReadyAfter(ready, idx, k - 1, n) || Cursor(idx, k - 1, n) + 1 == n
  }

  /** frame_ready is raised exactly when the bytes stored reach the end of
      the frame. */
  lemma {:induction false} ReadyAfterIff(ready: bool, idx: nat, k: nat, n: nat)
    requires idx < n
    ensures ReadyAfter(ready, idx, k, n) == (ready || idx + k >= n)
    decreases k
  {
    if k > 0 {
      ReadyAfterIff(ready, idx, k - 1, n);
      if idx + k - 1 < n {
        CursorNoWrap(idx, k - 1, n);
      }
    }
  }

  /** Without a wrap, the bytes land in consecutive slots and the others are
      kept. */
  lemma {:induction false} DepositInPlace(frame: seq<bv8>, idx: nat, data: seq<bv8>)
    requires idx + |data| <= |frame| && idx < |frame|
    ensures Deposit(frame, idx, data) == frame[..idx] + data + frame[idx + |data|..]
    decreases |data|
  {
    if data != [] {
      var m := |data| - 1;
      DepositInPlace(frame, idx, data[..m]);
      CursorNoWrap(idx, m, |frame|);
      UpdateSplice(frame[..idx], data[..m], frame[idx + m..], data[m]);
      assert data[..m] + [data[m]] == data;
      assert frame[idx + m..][1..] == frame[idx + |data|..];
    }
  }

  /** Overwriting the first element of the last part of a + b + c. */
  lemma UpdateSplice(a: seq<bv8>, b: seq<bv8>, c: seq<bv8>, x: bv8)
    requires c != []
    ensures (a + b + c)[|a| + |b| := x] == a + (b + [x]) + c[1..]
  {
  }

  /** Storing a ++ b is storing a, then storing b from where the cursor
      stopped. */
  lemma {:induction false} DepositAppend(frame: seq<bv8>, idx: nat, a: seq<bv8>, b: seq<bv8>)
    requires idx < |frame|
    ensures Deposit(frame, idx, a + b)
         == Deposit(Deposit(frame, idx, a), Cursor(idx, |a|, |frame|), b)
    decreases |b|
  {
    if b == [] {
      assert a + b == a;
    } else {
      var m := |b| - 1;
      DepositAppend(frame, idx, a, b[..m]);
      assert (a + b)[..|a + b| - 1] == a + b[..m];
      assert (a + b)[|a + b| - 1] == b[m];
      CursorAppend(idx, |a|, m, |frame|);
    }
  }

  /** Storing one more byte of data writes it at the cursor reached so far. */
  lemma DepositStep(frame: seq<bv8>, idx: nat, data: seq<bv8>, k: nat)
    requires idx < |frame| && k < |data|
    ensures Deposit(frame, idx, data[..k + 1])
         == Deposit(frame, idx, data[..k])[Cursor(idx, k, |frame|) := data[k]]
  {
    assert data[..k + 1][..k] == data[..k];
  }

  /** Taking one byte off the front of the suffix from k leaves the suffix
      from k + 1. */
  lemma SuffixStep(data: seq<bv8>, k: nat)
    requires k <= |data|
    ensures data[k..] == [] <==> k == |data|
    ensures k < |data| ==> data[k..][0] == data[k] && data[k..][1..] == data[k + 1..]
  {
  }

  /** Filling the frame from slot idx to its end keeps the slots before idx
      and leaves the cursor back at slot 0. */
  lemma DepositToEnd(frame: seq<bv8>, idx: nat, head: seq<bv8>)
    requires idx < |frame| && idx + |head| == |frame|
    ensures Deposit(frame, idx, head) == frame[..idx] + head
    ensures Cursor(idx, |head|, |frame|) == 0
  {
    DepositInPlace(frame, idx, head);
    assert frame[idx + |head|..] == [];
    CursorNoWrap(idx, |head| - 1, |frame|);
  }

  /** When the bytes drained reach past the last slot, the bytes after the
      wrap overwrite the frame again from slot 0. */
  lemma DepositWraps(frame: seq<bv8>, idx: nat, data: seq<bv8>)
    requires idx < |frame| && idx + |data| >= |frame|
    ensures var k := |frame| - idx;
      Deposit(frame, idx, data) == Deposit(frame[..idx] + data[..k], 0, data[k..])
  {
    var k := |frame| - idx;
    var head, rest := data[..k], data[k..];
    assert head + rest == data;
    DepositAppend(frame, idx, head, rest);
    DepositToEnd(frame, idx, head);
  }

  /** The slave's receive state: the ring buffer filled by the USART
      interrupt, the static frame and frame_index of the assembler, the
      frame_ready flag and the slave table. */
  class Slave {
    const ring: RxRing
    const frame: array<bv8>
    const frameSize: nat
    const slaves: seq<bv8>
    var frameIndex: nat
    var frameReady: bool

    /** frame_index is a uint8_t compared with MODBUS_FRAME_SIZE, and the
        trailer check needs two bytes, so 2 <= F <= 255. */
    ghost predicate Valid()
      reads this, ring
    {
      ring.Valid() && frame != ring.rxBuffer && frame.Length == frameSize
      && 2 <= frameSize <= 255 && frameIndex < frameSize
    }

    /** The zero-initialised statics. */
    constructor (r: RxRing, n: nat, table: seq<bv8>)
      requires r.Valid() && 2 <= n <= 255
      ensures Valid() && fresh(frame) && ring == r && frameSize == n && slaves == table
      ensures frameIndex == 0 && !frameReady && frame[..] == seq(n, _ => 0)
    {
      ring := r;
      frameSize := n;
      slaves := table;
      frame := new bv8[n](_ => 0);
      frameIndex := 0;
      frameReady := false;
    }

    /** The assembler state after the bytes prefix were stored, starting
        from the frame f0, frame_index idx0 and frame_ready ready0. */
    ghost predicate Assembled(f0: seq<bv8>, idx0: nat, ready0: bool, prefix: seq<bv8>)
      reads this, frame
    {
      idx0 < |f0| == frameSize && frame[..] == Deposit(f0, idx0, prefix)
      && frameIndex == Cursor(idx0, |prefix|, frameSize)
      && frameReady == ReadyAfter(ready0, idx0, |prefix|, frameSize)
    }

    /** What the last MODBUS_RingBufferRead left, k bytes into draining
        drained: either byte is drained[k] and the rest is still queued,
        or all of drained is gone. */
    ghost predicate Pending(drained: seq<bv8>, k: nat, status: bv8, byte: bv8)
      reads ring, ring.rxBuffer
    {
      ring.Valid()
      && if status == 0 then k < |drained| && byte == drained[k] && ring.Contents() == drained[k + 1..]
         else k == |drained| && ring.Contents() == []
    }

    /** MODBUS_BuildFrame: drain the ring into the frame. frame_index moves
        on by the number of bytes drained, modulo F; frame_ready is raised
        (and stays raised) once the cursor wraps. */
    method BuildFrame()
      requires Valid()
      modifies this, ring, frame
      ensures Valid() && ring.Contents() == []
      ensures ring.rxHead == old(ring.rxHead) && ring.bufferOvf == old(ring.bufferOvf)
      ensures frame[..] == Deposit(old(frame[..]), old(frameIndex), old(ring.Contents()))
      ensures frameIndex == Cursor(old(frameIndex), |old(ring.Contents())|, frameSize)
      ensures frameReady == (old(frameReady) || old(frameIndex) + |old(ring.Contents())| >= frameSize)
    {
      ghost var drained, f0, idx0, ready0 := ring.Contents(), frame[..], frameIndex, frameReady;
      ghost var k := 0;
      var byte: bv8 := 0;
      var status;
      assert drained[..0] == [];
      status, byte := ring.RingBufferRead(byte);
      SuffixStep(drained, 0);
      while status == 0
        invariant Valid() && k <= |drained|
        invariant ring.rxHead == old(ring.rxHead) && ring.bufferOvf == old(ring.bufferOvf)
        invariant Pending(drained, k, status, byte)
        invariant Assembled(f0, idx0, ready0, drained[..k])
        decreases |drained| - k + (if status == 0 then 1 else 0)
      {
        status, byte := Pump(drained, f0, idx0, ready0, k, byte);
        k := k + 1;
      }
      assert drained[..k] == drained;
      ReadyAfterIff(ready0, idx0, k, frameSize);
    }

    /** One pass of the MODBUS_BuildFrame loop, with the next read: the
        assembler state moves from the first k drained bytes to the first
        k + 1, and the ring gives up the next byte, if any. */
    method Pump(ghost drained: seq<bv8>, ghost f0: seq<bv8>, ghost idx0: nat, ghost ready0: bool,
                ghost k: nat, byte: bv8) returns (status: bv8, next: bv8)
      requires Valid() && Pending(drained, k, 0, byte) && Assembled(f0, idx0, ready0, drained[..k])
      modifies this, ring, frame
      ensures Valid() && ring.rxHead == old(ring.rxHead) && ring.bufferOvf == old(ring.bufferOvf)
      ensures Pending(drained, k + 1, status, next) && Assembled(f0, idx0, ready0, drained[..k + 1])
    {
      DepositStep(f0, idx0, drained, k);
      StoreByte(byte);
      SuffixStep(drained, k + 1);
      status, next := ring.RingBufferRead(byte);
    }

    /** One pass of the MODBUS_BuildFrame loop: store the byte at
        frame_index, advance it, and on reaching F raise frame_ready and go
        back to slot 0. */
    method StoreByte(byte: bv8)
      requires Valid()
      modifies this, frame
      ensures Valid()
      ensures frame[..] == old(frame[..])[old(frameIndex) := byte]
      ensures frameIndex == NextSlot(old(frameIndex), frameSize)
      ensures frameReady == (old(frameReady) || old(frameIndex) + 1 == frameSize)
    {
      frame[frameIndex] := byte;
      frameIndex := frameIndex + 1;
      if frameIndex >= frameSize {
        frameReady := true;
        frameIndex := 0;
      }
    }

    /** MODBUS_ProcessFrame: assemble, then, once a frame is complete,
        check the address and only for a served address the CRC. frame_ready
        is cleared whatever the outcome. */
    method ProcessFrame() returns (outcome: Outcome)
      requires Valid()
      modifies this, ring, frame
      ensures Valid() && ring.Contents() == [] && !frameReady
      ensures ring.rxHead == old(ring.rxHead) && ring.bufferOvf == old(ring.bufferOvf)
      ensures frame[..] == Deposit(old(frame[..]), old(frameIndex), old(ring.Contents()))
      ensures frameIndex == Cursor(old(frameIndex), |old(ring.Contents())|, frameSize)
      ensures outcome == Dispatch(old(frameReady) || old(frameIndex) + |old(ring.Contents())| >= frameSize,
                                  frame[..], slaves)
    {
      BuildFrame();
      if !frameReady {
        return NoFrame;
      }
      var status := CheckAddress(slaves, frame[0]);
      if status == AddrValid {
        outcome := ProcessValidFrame(frame);
      } else {
        outcome := InvalidAddress;
      }
      frameReady := false;
    }
  }

  /** MODBUS_ProcessValidFrame: a checksum error, or the valid path, where
      MODBUS_ReadSensor (empty) is called. */
  method ProcessValidFrame(frame: array<bv8>) returns (outcome: Outcome)
    requires frame.Length >= 2
    ensures outcome == ChecksumError || outcome == ValidRequest
    ensures outcome == ValidRequest <==> TrailerMatches(frame[..])
  {
    var status := VerifyCrc(frame);
    if status == CrcInvalid {
      return ChecksumError;
    }
    return ValidRequest;
  }
}
