/** The request frames the host sends, checked against the slave's receive
    path: the example request of src/Master/master.py and the two SGP30
    frames of src/Master/sensors.py. The CRC values are computed with the
    bitwise host CRC and carried over to the table-driven one. */
module RequestFrames {
  import opened ModbusCrc
  import opened Master
  import opened CrcEquivalence
  import opened ModbusSlave
  import opened Sensors

  /** The body of the example request: read input register 1 of slave 1. */
  function ExampleBody(): (r: seq<bv8>)
    ensures |r| == 6 && r[0] == 0x01 && r[1] == 0x04
  {
    [0x01, 0x04, 0x00, 0x01, 0x00, 0x01]
  }

  /** The example request frame, 01 04 00 01 00 01 60 0A. */
  function ExampleFrame(): (r: seq<bv8>)
    ensures |r| == 8 && r[..6] == ExampleBody()
  {
    [0x01, 0x04, 0x00, 0x01, 0x00, 0x01, 0x60, 0x0A]
  }

  /** Both CRCs of the example body are 0x0A60. */
  lemma ExampleCrc()
    ensures ComputeCrcOf(ExampleBody()) == 0x0A60
    ensures Crc16Of(ExampleBody()) == 0x0A60
  {
    ExampleBitwiseCrc();
    ComputeCrcIsCrc16(ExampleBody());
  }

  /** compute_crc of the example body, byte by byte. */
  lemma ExampleBitwiseCrc()
    ensures ComputeCrcOf(ExampleBody()) == 0x0A60
  {
    var m: seq<bv8> := [0x01, 0x04, 0x00, 0x01, 0x00, 0x01];
    assert ByteUpdate(0xFFFF, 0x01) == 0x807E;
    assert ByteUpdate(0x807E, 0x04) == 0xE301;
    assert ByteUpdate(0xE301, 0x00) == 0xC022;
    assert ByteUpdate(0xC022, 0x01) == 0xD981;
    assert ByteUpdate(0xD981, 0x00) == 0x6019;
    assert ByteUpdate(0x6019, 0x01) == 0x0A60;
    assert m[1..][1..][1..][1..][1..][1..] == [];
  }

  /** The example request carries its CRC low byte first, is addressed to a
      listed slave, and reaches the valid-request path. */
  lemma ExampleAccepted()
    ensures TrailerMatches(ExampleFrame())
    ensures Dispatch(true, ExampleFrame(), DefaultSlaves) == ValidRequest
  {
    ExampleCrc();
    assert ExampleFrame() == ExampleBody() + CrcTrailer(0x0A60);
    WellFormedRequestAccepted(ExampleBody(), DefaultSlaves);
  }

  /** The CRC of the CO2 request body is 0x8E61. */
  lemma Co2Crc()
    ensures Crc16Of(RequestBody(Co2Register)) == 0x8E61
  {
    var m := RequestBody(Co2Register);
    assert ByteUpdate(0xFFFF, 0x05) == 0x437F;
    assert ByteUpdate(0x437F, 0x04) == 0x2303;
    assert ByteUpdate(0x2303, 0x00) == 0x0163;
    assert ByteUpdate(0x0163, 0x01) == 0xE980;
    assert ByteUpdate(0xE980, 0x00) == 0xA0E8;
    assert ByteUpdate(0xA0E8, 0x01) == 0x8E61;
    assert m[1..][1..][1..][1..][1..][1..] == [];
    ComputeCrcIsCrc16(m);
  }

  /** The CRC of the VOC request body is 0x8E91. */
  lemma VocCrc()
    ensures Crc16Of(RequestBody(VocRegister)) == 0x8E91
  {
    var m := RequestBody(VocRegister);
    assert ByteUpdate(0xFFFF, 0x05) == 0x437F;
    assert ByteUpdate(0x437F, 0x04) == 0x2303;
    assert ByteUpdate(0x2303, 0x00) == 0x0163;
    assert ByteUpdate(0x0163, 0x02) == 0xE8C0;
    assert ByteUpdate(0xE8C0, 0x00) == 0x50E8;
    assert ByteUpdate(0x50E8, 0x01) == 0x8E91;
    assert m[1..][1..][1..][1..][1..][1..] == [];
    ComputeCrcIsCrc16(m);
  }

  /** The written SGP30 frames carry the right CRC but high byte first, so
      the slave's trailer check rejects both; once the slave is listed,
      they end on the checksum-error path. */
  lemma FramesAsWrittenRejected(slaves: seq<bv8>)
    ensures !TrailerMatches(Co2FrameAsWritten())
    ensures !TrailerMatches(VocFrameAsWritten())
    ensures 0x05 in slaves ==> Dispatch(true, Co2FrameAsWritten(), slaves) == ChecksumError
    ensures 0x05 in slaves ==> Dispatch(true, VocFrameAsWritten(), slaves) == ChecksumError
  {
    Co2Crc();
    VocCrc();
    var co2, voc := Co2FrameAsWritten(), VocFrameAsWritten();
    assert co2 == RequestBody(Co2Register) + [0x8E, 0x61];
    assert voc == RequestBody(VocRegister) + [0x8E, 0x91];
    TrailerMatchesIff(RequestBody(Co2Register), [0x8E, 0x61]);
    TrailerMatchesIff(RequestBody(VocRegister), [0x8E, 0x91]);
  }

  /** The corrected frames end in 61 8E and 91 8E, and pass the trailer
      check. */
  lemma CorrectedFrames()
    ensures RequestFrame(Co2Register) == [0x05, 0x04, 0x00, 0x01, 0x00, 0x01, 0x61, 0x8E]
    ensures RequestFrame(VocRegister) == [0x05, 0x04, 0x00, 0x02, 0x00, 0x01, 0x91, 0x8E]
    ensures TrailerMatches(RequestFrame(Co2Register)) && TrailerMatches(RequestFrame(VocRegister))
  {
    Co2Crc();
    VocCrc();
    TrailerMatchesIff(RequestBody(Co2Register), CrcTrailer(0x8E61));
    TrailerMatchesIff(RequestBody(VocRegister), CrcTrailer(0x8E91));
  }

  /** Whatever the option, the corrected frame SelectFrame returns reaches
      the valid-request path of a slave that lists address 0x05 (the frames
      SGP30.read sends as written do not: FramesAsWrittenRejected). */
  lemma SelectedFrameAccepted(option: int, slaves: seq<bv8>)
    requires 0x05 in slaves
    ensures Dispatch(true, SelectFrame(option), slaves) == ValidRequest
  {
    var register := SelectFrame(option)[3];
    WellFormedRequestAccepted(RequestBody(register), slaves);
  }

  /** Address 0x05 is not in the slave table of the firmware, so every
      SGP30 frame, written or corrected, is dropped by the address check. */
  lemma Sgp30AddressNotListed(option: int)
    ensures 0x05 !in DefaultSlaves
    ensures Dispatch(true, SelectFrame(option), DefaultSlaves) == InvalidAddress
    ensures Dispatch(true, Co2FrameAsWritten(), DefaultSlaves) == InvalidAddress
    ensures Dispatch(true, VocFrameAsWritten(), DefaultSlaves) == InvalidAddress
  {
    DefaultSlavesAscending();
  }
}
