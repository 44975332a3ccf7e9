/** The host-side CRC (Master.compute_crc in src/Master/master.py): the
    bitwise CRC-16/MODBUS, eight shift/XOR rounds per byte.

    Python's crc is an unbounded int. It is modelled as a bv32: XOR and a
    right shift never produce a wider value than their operands, so every
    value the Python loop computes (always below 2^16, see ComputeCrcBound)
    is represented exactly. */
module Master {

  /** One pass of the inner loop: shift right by one, and XOR in 0xA001 when
      the bit shifted out was 1. */
  function BitStep(crc: bv32): (r: bv32)
  {
    if crc & 1 == 1 then (crc >> 1) ^ 0xA001 else crc >> 1
  }

  /** n passes of the inner loop. */
  function BitSteps(crc: bv32, n: nat): (r: bv32)
    decreases n
  {
    if n == 0 then crc else BitSteps(BitStep(crc), n - 1)
  }

  /** One pass of the outer loop: XOR the byte into the low bits, then eight
      passes of the inner loop. */
  function ByteUpdate(crc: bv32, b: bv8): (r: bv32)
  {
    BitSteps(crc ^ b as bv32, 8)
  }

  /** The outer loop as a left fold over the message, first byte first. */
  function BitwiseFold(crc: bv32, msg: seq<bv8>): (r: bv32)
    decreases |msg|
  {
    if msg == [] then crc else BitwiseFold(ByteUpdate(crc, msg[0]), msg[1..])
  }

  /** The value compute_crc returns for msg. */
  function ComputeCrcOf(msg: seq<bv8>): (r: bv32)
  {
    BitwiseFold(0xFFFF, msg)
  }

  /** The last inner pass is applied last. */
  lemma {:induction false} BitStepsSnoc(crc: bv32, n: nat)
    ensures BitSteps(crc, n + 1) == BitStep(BitSteps(crc, n))
    decreases n
  {
    if n > 0 {
      BitStepsSnoc(BitStep(crc), n - 1);
    }
  }

  /** Processing a ++ b continues the per-byte loop from the state reached
      after a. */
  lemma {:induction false} BitwiseFoldAppend(crc: bv32, a: seq<bv8>, b: seq<bv8>)
    ensures BitwiseFold(crc, a + b) == BitwiseFold(BitwiseFold(crc, a), b)
    decreases |a|
  {
    if a == [] {
      assert a + b == b;
    } else {
      assert (a + b)[0] == a[0];
      assert (a + b)[1..] == a[1..] + b;
      BitwiseFoldAppend(ByteUpdate(crc, a[0]), a[1..], b);
    }
  }

  /** The loop state after i + 1 bytes is one outer pass over the state
      after i bytes. */
  lemma BitwiseFoldPrefix(msg: seq<bv8>, i: nat)
    requires i < |msg|
    ensures BitwiseFold(0xFFFF, msg[..i + 1]) == ByteUpdate(BitwiseFold(0xFFFF, msg[..i]), msg[i])
  {
    assert msg[..i + 1] == msg[..i] + [msg[i]];
    BitwiseFoldAppend(0xFFFF, msg[..i], [msg[i]]);
  }

  /** compute_crc of an empty message is the seed. */
  lemma ComputeCrcOfEmpty()
    ensures ComputeCrcOf([]) == 0xFFFF
  {
  }

  /** An inner pass keeps a 16-bit value within 16 bits. */
  lemma BitStepBound(crc: bv32)
    requires crc <= 0xFFFF
    ensures BitStep(crc) <= 0xFFFF
  {
  }

  /** The inner loop keeps a 16-bit value within 16 bits. */
  lemma {:induction false} BitStepsBound(crc: bv32, n: nat)
    requires crc <= 0xFFFF
    ensures BitSteps(crc, n) <= 0xFFFF
    decreases n
  {
    if n > 0 {
      BitStepBound(crc);
      BitStepsBound(BitStep(crc), n - 1);
    }
  }

  /** From a 16-bit state, the outer loop stays within 16 bits. */
  lemma {:induction false} BitwiseFoldBound(crc: bv32, msg: seq<bv8>)
    requires crc <= 0xFFFF
    ensures BitwiseFold(crc, msg) <= 0xFFFF
    decreases |msg|
  {
    if msg != [] {
      assert crc ^ msg[0] as bv32 <= 0xFFFF;
      BitStepsBound(crc ^ msg[0] as bv32, 8);
      BitwiseFoldBound(ByteUpdate(crc, msg[0]), msg[1..]);
    }
  }

  /** The result of compute_crc always lies in [0, 0xFFFF]. */
  lemma ComputeCrcBound(msg: seq<bv8>)
    ensures ComputeCrcOf(msg) <= 0xFFFF
  {
    BitwiseFoldBound(0xFFFF, msg);
  }

  /** Eight inner passes, written out. */
  function EightSteps(c: bv32): (r: bv32)
  {
    BitStep(BitStep(BitStep(BitStep(BitStep(BitStep(BitStep(BitStep(c))))))))
  }

  lemma EightStepsUnrolled(c: bv32)
    ensures BitSteps(c, 8) == EightSteps(c)
  {
    var c1 := BitStep(c);
    var c2 := BitStep(c1);
    var c3 := BitStep(c2);
    var c4 := BitStep(c3);
    var c5 := BitStep(c4);
    var c6 := BitStep(c5);
    var c7 := BitStep(c6);
    assert BitSteps(c7, 1) == BitStep(c7);
    assert BitSteps(c6, 2) == BitSteps(c7, 1);
    assert BitSteps(c5, 3) == BitSteps(c6, 2);
    assert BitSteps(c4, 4) == BitSteps(c5, 3);
    assert BitSteps(c3, 5) == BitSteps(c4, 4);
    assert BitSteps(c2, 6) == BitSteps(c3, 5);
    assert BitSteps(c1, 7) == BitSteps(c2, 6);
  }

  /** From a 16-bit state, eight inner passes over crc ^ b are the high
      byte of crc shifted down, XOR the eight passes over the low byte of
      crc ^ b: the bits above the low byte are only shifted, never tested. */
  lemma EightStepsSplit(crc: bv32, b: bv8)
    requires crc <= 0xFFFF
    ensures EightSteps(crc ^ b as bv32) == (crc >> 8) ^ EightSteps((crc ^ b as bv32) & 0xFF)
  {
  }

  /** One outer pass from a 16-bit state, as a shift of the high byte and
      eight passes over lo, the low byte of crc ^ b. */
  lemma ByteUpdateSplit(crc: bv32, b: bv8, lo: bv32)
    requires crc <= 0xFFFF && lo == (crc ^ b as bv32) & 0xFF
    ensures ByteUpdate(crc, b) == (crc >> 8) ^ BitSteps(lo, 8)
  {
    EightStepsUnrolled(crc ^ b as bv32);
    EightStepsUnrolled(lo);
    EightStepsSplit(crc, b);
  }

  /** The inner loop of compute_crc: eight shift rounds. */
  method ShiftRounds(mixed: bv32) returns (crc: bv32)
    ensures crc == BitSteps(mixed, 8)
  {
    crc := mixed;
    for k := 0 to 8
      invariant crc == BitSteps(mixed, k)
    {
      BitStepsSnoc(mixed, k);
      if crc & 1 == 1 {
        crc := crc >> 1;
        crc := crc ^ 0xA001;
      } else {
        crc := crc >> 1;
      }
    }
  }

  /** compute_crc as written: a for loop over the bytes with a nested loop of
      eight shift rounds. */
  method ComputeCrc(msg: seq<bv8>) returns (crc: bv32)
    ensures crc == ComputeCrcOf(msg)
  {
    crc := 0xFFFF;
    for i := 0 to |msg|
      invariant crc == BitwiseFold(0xFFFF, msg[..i])
    {
      BitwiseFoldPrefix(msg, i);
      crc := crc ^ msg[i] as bv32;
      crc := ShiftRounds(crc);
    }
    assert msg[..|msg|] == msg;
  }
}
