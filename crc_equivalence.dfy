/** The bitwise CRC of the host and the table-driven CRC of the slave agree:
    Master.compute_crc(m) == CRC16(m, |m|) for every byte sequence m. */
module CrcEquivalence {
  import opened ModbusCrc
  import opened Master

  /** Table rows 0 to 3 (entries 0 to 31). */
  lemma TableEntries0To31(i: bv8)
    requires i < 32
    ensures TableLookup(i) as bv32 == EightSteps(i as bv32)
  {
  }

  /** Table rows 4 to 7 (entries 32 to 63). */
  lemma TableEntries32To63(i: bv8)
    requires 32 <= i < 64
    ensures TableLookup(i) as bv32 == EightSteps(i as bv32)
  {
  }

  /** Table rows 8 to 11 (entries 64 to 95). */
  lemma TableEntries64To95(i: bv8)
    requires 64 <= i < 96
    ensures TableLookup(i) as bv32 == EightSteps(i as bv32)
  {
  }

  /** Table rows 12 to 15 (entries 96 to 127). */
  lemma TableEntries96To127(i: bv8)
    requires 96 <= i < 128
    ensures TableLookup(i) as bv32 == EightSteps(i as bv32)
  {
  }

  /** Table rows 16 to 19 (entries 128 to 159). */
  lemma TableEntries128To159(i: bv8)
    requires 128 <= i < 160
    ensures TableLookup(i) as bv32 == EightSteps(i as bv32)
  {
  }

  /** Table rows 20 to 23 (entries 160 to 191). */
  lemma TableEntries160To191(i: bv8)
    requires 160 <= i < 192
    ensures TableLookup(i) as bv32 == EightSteps(i as bv32)
  {
  }

  /** Table rows 24 to 27 (entries 192 to 223). */
  lemma TableEntries192To223(i: bv8)
    requires 192 <= i < 224
    ensures TableLookup(i) as bv32 == EightSteps(i as bv32)
  {
  }

  /** Table rows 28 to 31 (entries 224 to 255). */
  lemma TableEntries224To255(i: bv8)
    requires 224 <= i
    ensures TableLookup(i) as bv32 == EightSteps(i as bv32)
  {
  }

  /** Every entry of wCRCTable is its index put through eight passes of the
      bitwise inner loop: the table is the byte-at-a-time form of the
      reflected polynomial 0xA001. */
  lemma TableIsBitwise(i: bv8)
    ensures TableLookup(i) as bv32 == BitSteps(i as bv32, 8)
  {
    EightStepsUnrolled(i as bv32);
    if i < 32 {
      TableEntries0To31(i);
    } else if i < 64 {
      TableEntries32To63(i);
    } else if i < 96 {
      TableEntries64To95(i);
    } else if i < 128 {
      TableEntries96To127(i);
    } else if i < 160 {
      TableEntries128To159(i);
    } else if i < 192 {
      TableEntries160To191(i);
    } else if i < 224 {
      TableEntries192To223(i);
    } else {
      TableEntries224To255(i);
    }
  }

  /** One outer pass of compute_crc from a 16-bit state, given any t that
      holds the eight inner passes over the low byte the slave selects. */
  lemma ByteUpdateWithEntry(crc: bv16, b: bv8, t: bv16)
    requires t as bv32 == BitSteps(((b as bv16 ^ crc) & 0xFF) as bv8 as bv32, 8)
    ensures ByteUpdate(crc as bv32, b) == ((crc >> 8) ^ t) as bv32
  {
    var lo := ((b as bv16 ^ crc) & 0xFF) as bv8 as bv32;
    LowByteWidens(crc, b);
    ByteUpdateSplit(crc as bv32, b, lo);
    WidenShiftXor(crc, t, ByteUpdate(crc as bv32, b), BitSteps(lo, 8));
  }

  /** Widening to 32 bits commutes with the shift and the XOR of the
      slave's step. */
  lemma WidenShiftXor(crc: bv16, t: bv16, u: bv32, s: bv32)
    requires u == (crc as bv32 >> 8) ^ s && s == t as bv32
    ensures u == ((crc >> 8) ^ t) as bv32
  {
  }

  /** One byte: the host's XOR-then-eight-passes equals the slave's
      shift-and-lookup, since the table precomputes the eight passes over
      the low byte (TableIsBitwise). */
  lemma ByteUpdateIsCrcStep(crc: bv16, b: bv8)
    ensures ByteUpdate(crc as bv32, b) == CrcStep(crc, b) as bv32
  {
    var nTemp := ((b as bv16 ^ crc) & 0xFF) as bv8;
    TableIsBitwise(nTemp);
    ByteUpdateWithEntry(crc, b, TableLookup(nTemp));
  }

  /** The host and the slave select the same table index. */
  lemma LowByteWidens(crc: bv16, b: bv8)
    ensures (crc as bv32 ^ b as bv32) & 0xFF == ((b as bv16 ^ crc) & 0xFF) as bv8 as bv32
  {
  }

  /** The two outer loops agree on every message, from any 16-bit state. */
  lemma {:induction false} BitwiseFoldIsCrcFold(crc: bv16, msg: seq<bv8>)
    ensures BitwiseFold(crc as bv32, msg) == CrcFold(crc, msg) as bv32
    decreases |msg|
  {
    if msg != [] {
      ByteUpdateIsCrcStep(crc, msg[0]);
      BitwiseFoldIsCrcFold(CrcStep(crc, msg[0]), msg[1..]);
    }
  }

  /** compute_crc(m) == CRC16(m, |m|) for every byte sequence m. */
  lemma ComputeCrcIsCrc16(msg: seq<bv8>)
    ensures ComputeCrcOf(msg) == Crc16Of(msg) as bv32
  {
    BitwiseFoldIsCrcFold(CrcSeed, msg);
  }
}
