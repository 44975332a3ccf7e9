/** The SGP30 proxy of the host (class SGP30 in src/Master/sensors.py): the
    two request frames it sends, the choice between them, and the decoding
    of the register value in the slave's reply. */
module Sensors {
  import opened ModbusCrc

  /** Index errors of the Python code surface as Error. */
  datatype Result<T> = Ok(value: T) | Error

  /** SGP30.convert: bytes 3 and 4 of the reply, high byte first. A reply
      shorter than five bytes makes the indexing raise. */
  function Convert(f: seq<bv8>): (r: Result<int>)
    ensures r.Ok? <==> |f| >= 5
    ensures r.Ok? ==> 0 <= r.value < 0x10000
    ensures r.Ok? ==> r.value / 256 == f[3] as int && r.value % 256 == f[4] as int
  {
    if |f| < 5 then Error
    else
      var msb := f[3] as int;
      var lsb := f[4] as int;
      Ok(msb * 256 + lsb)
  }

  /** The reply of a read of one input register holding hi * 256 + lo:
      address, function, byte count, then the register high byte first. */
  function RegisterReply(address: bv8, hi: bv8, lo: bv8): (r: seq<bv8>)
    ensures |r| == 5
  {
    [address, 0x04, 0x02, hi, lo]
  }

  /** Convert recovers the register value from any reply that carries it,
      whatever follows it (read_sensor reads seven bytes: the CRC too). */
  lemma ConvertRoundTrip(address: bv8, hi: bv8, lo: bv8, rest: seq<bv8>)
    ensures Convert(RegisterReply(address, hi, lo) + rest) == Ok(hi as int * 256 + lo as int)
  {
    var f := RegisterReply(address, hi, lo) + rest;
    assert f[3] == hi && f[4] == lo;
  }

  /** The example reply 05 04 02 01 A4 carries 0x01A4 = 420. */
  lemma ConvertExample()
    ensures Convert([0x05, 0x04, 0x02, 0x01, 0xA4]) == Ok(420)
  {
  }

  /** The request read_sensor sends, without its CRC: read one input
      register at the given address of slave 0x05. */
  function RequestBody(register: bv8): (r: seq<bv8>)
    ensures |r| == 6 && r[0] == 0x05 && r[1] == 0x04 && r[3] == register
  {
    [0x05, 0x04, 0x00, register, 0x00, 0x01]
  }

  /** co2_request_frame and voc_request_frame as written in the source. */
  function Co2FrameAsWritten(): (r: seq<bv8>)
    ensures |r| == 8
  {
    [0x05, 0x04, 0x00, 0x01, 0x00, 0x01, 0x8E, 0x61]
  }

  function VocFrameAsWritten(): (r: seq<bv8>)
    ensures |r| == 8
  {
    [0x05, 0x04, 0x00, 0x02, 0x00, 0x01, 0x8E, 0x91]
  }

  /** The written frames: eight bytes, slave 0x05, function 0x04, the same
      except for the register number (1 and 2) and the last byte. */
  lemma FramesAsWrittenShape()
    ensures Co2FrameAsWritten()[..6] == RequestBody(0x01)
    ensures VocFrameAsWritten()[..6] == RequestBody(0x02)
    ensures forall i :: 0 <= i < 8 ==>
              (Co2FrameAsWritten()[i] == VocFrameAsWritten()[i] <==> i != 3 && i != 7)
  {
  }

  /** A request frame with its CRC appended low byte first, as the slave
      checks it. */
  function RequestFrame(register: bv8): (r: seq<bv8>)
    ensures |r| == 8 && r[..6] == RequestBody(register)
    ensures r[6..] == CrcTrailer(Crc16Of(RequestBody(register)))
  {
    RequestBody(register) + CrcTrailer(Crc16Of(RequestBody(register)))
  }

  /** The CO2 and VOC registers. */
  const Co2Register: bv8 := 0x01
  const VocRegister: bv8 := 0x02

  /** SGP30.read: option 0 asks for CO2, every other option for VOC. */
  function SelectFrame(option: int): (r: seq<bv8>)
    ensures |r| == 8 && r[0] == 0x05 && r[1] == 0x04
    ensures r[3] == Co2Register <==> option == 0
    ensures r[3] == VocRegister <==> option != 0
    ensures r == RequestFrame(r[3])
  {
    if option == 0 then RequestFrame(Co2Register) else RequestFrame(VocRegister)
  }
}
