# Sensor hub: Modbus slave receive path, DHT22 capture and host helpers

This project models the core of a small sensor hub: a Cortex-M firmware acting as a
Modbus RTU slave, and a Python master that polls it.

The firmware receive path works like this:

- The USART interrupt buffers incoming bytes in a ring.
- The main loop drains the ring into a fixed-length frame.
- Once F bytes have arrived, the loop checks the slave address and the low-byte-first
  CRC-16/MODBUS trailer (sections 2.5.1.2 and 6.2.2 of the MODBUS over Serial Line
  Specification V1.02).
- A request that passes both checks reaches the point where the response would be
  built. No response is ever built: `MODBUS_ReadSensor` has an empty body, so the
  model stops there.

The DHT22 driver works like this:

- An edge interrupt timestamps the high pulses of the sensor's one-wire reply.
- A decoder classifies the pulse widths into bits and packs them into bytes,
  most significant bit first.
- `DHT22_read` checks the sum checksum and copies the four data bytes.

On the host side the model covers:

- `Master.compute_crc`, the bitwise CRC;
- the SGP30 request frames and the decoding of the register value;
- the append-only measurement store.

## Modules

| file | module | flavour |
|---|---|---|
| crc16.dfy | `ModbusCrc`: the 256-entry table and `CRC16` as a while loop | imperative method proved against the fold `Crc16Of` |
| modbus_ring.dfy | `ModbusRing`: class `RxRing` holding `rx_buffer`, `rx_head`, `rx_tail`, `buffer_OVF`, plus a reference FIFO | class with `modifies` |
| modbus_slave.dfy | `ModbusSlave`: class `Slave` holding the static frame, `frame_index` and `frame_ready`; the address and CRC checks; the dispatcher | class with `modifies`, loops |
| mod_arith.dfy | `ModArith`: facts about Euclidean `%` used by the cursor and counter proofs | lemmas |
| dht22.dfy | `Dht22`: class `Capture` (the IRQ statics and `pulses[]`), the decoder over arrays, the read decision, the pure transition `Step` | class, loops, functions |
| master_crc.dfy | `Master`: `compute_crc` as nested loops over a bv32 `crc`, proved against `ComputeCrcOf` | imperative |
| crc_equivalence.dfy | `CrcEquivalence`: the bitwise CRC equals the table CRC | lemmas |
| sensors.dfy | `Sensors`: `SGP30.convert`, `SGP30.read` frame selection, the frames | pure functions |
| request_frames.dfy | `RequestFrames`: the host's frames run through the slave's checks | lemmas |
| data_store.dfy | `DataStore`: class `SensorDataStore` over a map of `Series` objects | class with `modifies` |

Parameters:

- `MODBUS_FRAME_SIZE` is the `frameSize` of a `Slave`, with 2 ≤ F ≤ 255.
- `RX_BUFFER_SIZE` is the `size` of an `RxRing`, with 1 ≤ N ≤ 65536.
- The slave table is a sequence of addresses; `DefaultSlaves` is the firmware's
  {0x01, 0x04, 0x06}.
- `BIT_COUNT` is the `bitCount` of a `Capture`, with 1 ≤ BIT_COUNT ≤ 255.
- The DHT status values are a datatype whose values are only told apart.

Hardware register reads become method parameters:

- `USART_SR_RXNE` and `USART2->DR` are the `rxne` and `data` of `IrqHandler`.
- `TIM2->CNT` and the line level are the `now` and `rising` of `Edge`.

## Model

| member | source | states |
|---|---|---|
| ModbusCrc.Crc16 | src/Peripherals/modbus.c:26-74 | The while loop returns the left fold of the table step `(crc >> 8) ^ table[(b ^ crc) & 0xFF]`, starting at 0xFFFF, over the first wLength bytes. |
| ModbusCrc.Crc16OfEmpty | src/Peripherals/modbus.c:64-73 | The CRC of no bytes is 0xFFFF. |
| ModbusCrc.CrcFoldAppend | src/Peripherals/modbus.c:66-71 | The CRC of a ++ b continues from the CRC state reached after a. |
| ModbusCrc.CrcTrailer | src/Peripherals/modbus.c:83-84 | The two trailer bytes, low byte first, recombine to the CRC. |
| Master.ComputeCrc | src/Master/master.py:86-95 | The nested loops return `ComputeCrcOf(msg)`: per byte, an XOR into the low bits, then eight shift-right rounds, each XORing 0xA001 when the bit shifted out was 1. |
| Master.ShiftRounds | src/Master/master.py:89-94 | The inner loop applies exactly eight shift/XOR rounds. |
| Master.ComputeCrcOfEmpty | src/Master/master.py:86-87 | compute_crc of an empty message is 0xFFFF. |
| Master.ComputeCrcBound | src/Master/master.py:86-95 | compute_crc always returns a value in [0, 0xFFFF]. |
| Master.BitwiseFoldAppend | src/Master/master.py:87-95 | Processing a ++ b continues the per-byte loop from the state after a. |
| Master.ByteUpdateSplit | src/Master/master.py:88-94 | From a 16-bit state, one byte's rounds equal the high byte shifted down, XOR eight rounds over the low byte of crc ^ b. |
| CrcEquivalence.TableIsBitwise | src/Peripherals/modbus.c:28-61 | Every table entry i is eight bitwise rounds applied to i. |
| CrcEquivalence.ByteUpdateIsCrcStep | src/Peripherals/modbus.c:68-70 | One host byte update equals one slave table step. |
| CrcEquivalence.BitwiseFoldIsCrcFold | src/Master/master.py:87-95 | From any 16-bit state, the bitwise and table folds agree on every message. |
| CrcEquivalence.ComputeCrcIsCrc16 | src/Master/master.py:76-95 | `compute_crc(m) == CRC16(m, len(m))` for every byte sequence m. |
| ModbusRing.CountIsMod | src/Peripherals/modbus.c:192-198 | The number of queued bytes is (head - tail) mod N. |
| ModbusRing.RingFullIff | src/Peripherals/modbus.c:207-209 | `(head + 1) % N == tail` holds exactly when N - 1 bytes are queued; at most N - 1 ever are. |
| ModbusRing.RingEmptyIff | src/Peripherals/modbus.c:192 | `head == tail` holds exactly when the ring is empty. |
| ModbusRing.RingPush | src/Peripherals/modbus.c:209-213 | Writing the free slot and advancing head appends the byte to the queue. |
| ModbusRing.RingPop | src/Peripherals/modbus.c:197-198 | On a non-empty ring, `rx_buffer[rx_tail]` is the oldest byte, and advancing tail removes it. |
| ModbusRing.Enqueue | src/Peripherals/modbus.c:207-218 | The reference FIFO: an arrival is queued below capacity and dropped at capacity. |
| ModbusRing.RunIsFifo | src/Peripherals/modbus.c:190-219 | Over any interleaving of arrivals and reads, the bytes read followed by the bytes still queued are the original queue followed by the accepted arrivals. So each accepted byte comes out once, in arrival order. |
| ModbusRing.RunFirst | src/Peripherals/modbus.c:190-219 | How one arrival or one read (on an empty or a non-empty queue) advances the reference run. |
| ModbusRing.RxRing.constructor | src/Peripherals/modbus.c:16-18 | The ring starts empty, with no overflow. |
| ModbusRing.RxRing.IrqHandler | src/Peripherals/modbus.c:202-220 | Without RXNE nothing changes. With RXNE the queue becomes `Enqueue(queue, N - 1, data)`. When the ring was full, head and tail are unchanged and `buffer_OVF` is set; otherwise head advances by one mod N and tail is unchanged. |
| ModbusRing.RxRing.RingBufferRead | src/Peripherals/modbus.c:190-200 | On an empty ring it returns 0xFF (-1 as uint8_t) and changes nothing, including the caller's byte. Otherwise it returns 0 with the oldest byte and advances tail by one mod N, dropping that byte from the queue. Head never moves, and both cursors stay in [0, N). |
| ModbusRing.RxRing.ApplyEvent | src/Peripherals/modbus.c:190-219 | One interrupt or one read, with its effect on the queue and on the byte handed out. |
| ModbusRing.RxRing.ApplyEvents | src/Peripherals/modbus.c:190-219 | The interrupt and the reader taking turns behave exactly as the reference FIFO of capacity N - 1. |
| ModbusSlave.DefaultSlavesAscending | src/Peripherals/modbus.c:20-21 | The slave table {0x01, 0x04, 0x06} is strictly ascending, and an address is in it iff it is one of the three. |
| ModbusSlave.CheckAddress | src/Peripherals/modbus.c:93-106 | Returns ADDR_VALID iff the address occurs in the table, and ADDR_INVALID otherwise. |
| ModbusSlave.EndsWithCrcIff | src/Peripherals/modbus.c:83-84 | Two appended bytes match a CRC low byte first exactly when they are its trailer. |
| ModbusSlave.TrailerMatchesIff | src/Peripherals/modbus.c:81-84 | A frame passes the trailer rule iff its last two bytes are `CrcTrailer(CRC16(body))`. |
| ModbusSlave.TrailerCheck | src/Peripherals/modbus.c:83-85 | The source's two compares (`crc >> 8` against byte F-1, `crc & 0xFF` against byte F-2) decide exactly the trailer rule. |
| ModbusSlave.VerifyCrc | src/Peripherals/modbus.c:76-91 | Returns CRC_VALID iff `frame[F-2] == crc & 0xFF` and `frame[F-1] == crc >> 8`, where crc is the CRC of the first F-2 bytes; otherwise CRC_INVALID. |
| ModbusSlave.Dispatch | src/Peripherals/modbus.c:134-151 | With no frame ready it does nothing. An address not served gives the invalid-frame path whatever the CRC. A served address with a bad trailer gives a checksum error. And the valid path is reached iff the address is served and the trailer matches. |
| ModbusSlave.WellFormedRequestAccepted | src/Peripherals/modbus.c:139-166 | Any body for a served address, with its CRC trailer appended, reaches the valid path. |
| ModbusSlave.BadTrailerRejected | src/Peripherals/modbus.c:156-163 | Any other trailer on such a body gives a checksum error. |
| ModbusSlave.CursorIsMod | src/Peripherals/modbus.c:115-120 | After k stored bytes the frame cursor is (idx + k) mod F. |
| ModbusSlave.CursorNoWrap | src/Peripherals/modbus.c:115-116 | Before the end of the frame the cursor just counts. |
| ModbusSlave.CursorAppend | src/Peripherals/modbus.c:113-120 | Moving j + m slots is moving j slots, then m. |
| ModbusSlave.ReadyAfterIff | src/Peripherals/modbus.c:116-119 | `frame_ready` is raised exactly when the stored bytes reach the end of the frame, and it stays raised. |
| ModbusSlave.DepositInPlace | src/Peripherals/modbus.c:115 | Without a wrap, the drained bytes land in consecutive slots from the cursor, and all other slots are kept. |
| ModbusSlave.DepositAppend | src/Peripherals/modbus.c:113-121 | Storing a ++ b is storing a, then storing b from where the cursor stopped. |
| ModbusSlave.DepositToEnd | src/Peripherals/modbus.c:115-119 | Filling the frame to its end keeps the earlier slots and puts the cursor back at 0. |
| ModbusSlave.DepositWraps | src/Peripherals/modbus.c:115-120 | Bytes drained past the last slot overwrite the frame again from slot 0. |
| ModbusSlave.Slave.constructor | src/Peripherals/modbus.c:110 | The frame, `frame_index` and `frame_ready` start zeroed. |
| ModbusSlave.Slave.BuildFrame | src/Peripherals/modbus.c:108-122 | Drains the ring to empty; head and overflow are untouched. The drained bytes are deposited from the cursor, wrapping to slot 0. `frame_index` advances by their number mod F. `frame_ready` is raised iff the cursor reached F. |
| ModbusSlave.Slave.Pump | src/Peripherals/modbus.c:113-120 | One loop pass: the assembler moves from k to k + 1 drained bytes, and the next read returns the next queued byte or the empty status. |
| ModbusSlave.Slave.StoreByte | src/Peripherals/modbus.c:115-120 | `frame[frame_index] := byte`, then the cursor advances. On reaching F the cursor returns to 0 and `frame_ready` is raised. |
| ModbusSlave.Slave.ProcessFrame | src/Peripherals/modbus.c:129-152 | Assembles as BuildFrame does, then returns `Dispatch` on the assembled frame. The CRC is checked only for a served address, and `frame_ready` is 0 afterwards. |
| ModbusSlave.ProcessValidFrame | src/Peripherals/modbus.c:154-179 | A checksum error iff the trailer does not match; otherwise the valid path (the empty `MODBUS_ReadSensor`). |
| Dht22.CountAfterIsMod | src/Peripherals/timers.c:14 | With ARR = 0xFFFF, TIM2 counts modulo 2^16. |
| Dht22.ElapsedTicksIff | src/Sensors/dht22.c:172-185 | `(now - last) mod 2^16` is the one tick count below 2^16 that takes the counter from last to now. |
| Dht22.PulseWidthOffByOne | src/Sensors/dht22.c:185 | The handler's width is `now - last_time` without a wrap, and one less than `(now - last_time) mod 2^16` across the wrap. |
| Dht22.StoredWidthAsWritten | src/Sensors/dht22.c:185-186 | The stored width equals the handler's own `uint8_t` width when the counter does not wrap during the pulse, and is one more (mod 256) when it does. |
| Dht22.WrapFlipsBit | src/Sensors/dht22.c:185 | A 21-tick 0-bit across the wrap (0xFFF0 to 0x0005) is stored as 20, which decodes as a 1. |
| Dht22.Truncate | src/Sensors/dht22.c:186 | The stored width is the low 8 bits, and equals the width when the width is below 256. |
| Dht22.PackBits | src/Sensors/dht22.c:146-153 | The shift-in of bits, most significant first, stays below 2^n for n widths. |
| Dht22.Decoded | src/Sensors/dht22.c:144-158 | Byte k packs widths 8k+1 .. 8k+8. |
| Dht22.UniformCaptures | src/Sensors/dht22.c:146-153 | Data pulses of 26 ticks decode to zero bytes; pulses of 70 ticks decode to 0xFF bytes. |
| Dht22.PackZeros | src/Sensors/dht22.c:146-148 | Widths strictly between 20 and 32 pack to 0. |
| Dht22.PackOnes | src/Sensors/dht22.c:150-153 | Widths of 20 or less, or of 32 or more, pack to a run of one-bits. |
| Dht22.ResponsePulseIgnored | src/Sensors/dht22.c:144-146 | `pulses[0]`, the response pulse, takes no part in the bytes. |
| Dht22.TrailingPulsesIgnored | src/Sensors/dht22.c:155-158 | Widths after the last whole byte are discarded. |
| Dht22.DecodePulses | src/Sensors/dht22.c:140-161 | The loop stores, for each whole group of eight widths after `pulses[0]`, its packed byte in `byte_list`, and leaves the rest of `byte_list` alone. Writes stay within `byte_list` given (BIT_COUNT-1)/8 ≤ its length. |
| Dht22.DecodeBit | src/Sensors/dht22.c:146-159 | One loop pass: shift in the bit; after the eighth bit of a byte, store it and reset `current_byte`. |
| Dht22.DecodedAsWritten | src/Sensors/dht22.c:144 | The loop as written needs BIT_COUNT + 1 widths and packs BIT_COUNT / 8 bytes. |
| Dht22.AsWrittenReadsPastCapture | src/Sensors/dht22.c:5 | With BIT_COUNT = 40, the checksum byte depends on the value one past `pulses[]`. |
| Dht22.AsWrittenAgreesOffByteBoundary | src/Sensors/dht22.c:144-158 | When BIT_COUNT is not a multiple of 8, the over-read lands in a byte that is never stored, and the written loop gives the bytes of `DecodePulses`. |
| Dht22.ByteList | src/Sensors/dht22.c:34 | `byte_list` after the corrected decoder: the (BIT_COUNT-1)/8 decoded bytes, then zeros, 5 in all. |
| Dht22.Step | src/Sensors/dht22.c:168-198 | One handler call: the status becomes MEASURING. A rising edge sets `last_time := now` and keeps index and pulses. A falling edge stores the truncated corrected width `StoredWidth` at index, keeps `last_time`, and increments index. The status is READY exactly when index reached BIT_COUNT, which resets it to 0. |
| Dht22.TrainPrefix | src/Sensors/dht22.c:177-195 | Fewer than BIT_COUNT pulses from index 0 fill `pulses[0..k)` with their corrected widths `StoredWidth` in order and keep measuring. |
| Dht22.TrainCaptures | src/Sensors/dht22.c:177-195 | BIT_COUNT pulses from index 0 leave exactly their corrected widths `StoredWidth` in order, status READY and index 0. |
| Dht22.PulseMidway | src/Sensors/dht22.c:177-189 | A rise and a fall short of the last slot store the corrected width `StoredWidth` and move index on by one. |
| Dht22.PulseLast | src/Sensors/dht22.c:191-195 | The pulse filling the last slot stores the corrected width `StoredWidth` and makes the capture READY at index 0. |
| Dht22.Capture.constructor | src/Sensors/dht22.c:5-6 | The statics start zeroed. |
| Dht22.Capture.Edge | src/Sensors/dht22.c:168-198 | The handler's effect on (index, `last_time`, status, pulses) is `Step`; index stays below BIT_COUNT. |
| Dht22.Capture.FinishRead | src/Sensors/dht22.c:61-89 | On READY: the status becomes NOT_READY, `raw_reading[0..3]` are the decoded bytes 0..3, and the result is READY even when the checksum `(b0+b1+b2+b3) mod 256 != b4` fails (checksumOk reports that). Any other status returns DHT_ERROR and changes nothing. |
| Dht22.Capture.DecodeCapture | src/Sensors/dht22.c:34-66 | The zeroed `byte_list`, filled from the capture by the corrected decoder `DecodePulses`: it equals `ByteList` of the capture. |
| Sensors.Convert | src/Master/sensors.py:59-65 | `(f[3] << 8) \| f[4]`: in [0, 65535], with high byte f[3] and low byte f[4]. A frame shorter than 5 bytes raises (error). |
| Sensors.ConvertRoundTrip | src/Master/sensors.py:59-65 | The value carried in a register reply is recovered, whatever follows it. |
| Sensors.ConvertExample | src/Master/sensors.py:58 | `05 04 02 01 A4` converts to 420. |
| Sensors.FramesAsWrittenShape | src/Master/sensors.py:42-45 | Both frames are 8 bytes: address 0x05, function 0x04, register 1 or 2. They differ exactly at bytes 3 and 7. |
| Sensors.RequestFrame | src/Master/sensors.py:42-45 | A request is the 6-byte body followed by its CRC, low byte first. |
| Sensors.SelectFrame | src/Master/sensors.py:50-53 | Option 0 selects the CO2 frame (register 1); every other option selects the VOC frame (register 2). |
| RequestFrames.ExampleBitwiseCrc | src/Master/master.py:12 | compute_crc of `01 04 00 01 00 01` is 0x0A60. |
| RequestFrames.ExampleCrc | src/Master/master.py:12 | Both CRCs of the example body are 0x0A60. |
| RequestFrames.ExampleAccepted | src/Master/master.py:12 | `01 04 00 01 00 01 60 0A` passes the trailer check and reaches the slave's valid path. |
| RequestFrames.Co2Crc | src/Master/sensors.py:42-43 | CRC16(05 04 00 01 00 01) = 0x8E61. |
| RequestFrames.VocCrc | src/Master/sensors.py:44-45 | CRC16(05 04 00 02 00 01) = 0x8E91. |
| RequestFrames.FramesAsWrittenRejected | src/Master/sensors.py:42-45 | The written frames carry the CRC high byte first and fail `MODBUS_VerifyCRC`: a slave serving 0x05 drops both on the checksum-error path. |
| RequestFrames.CorrectedFrames | src/Master/sensors.py:42-45 | The low-byte-first frames end in `61 8E` and `91 8E` and pass the trailer check. |
| RequestFrames.SelectedFrameAccepted | src/Master/sensors.py:47-53 | Whatever the option, the corrected frame `SelectFrame` returns reaches the valid path of a slave serving 0x05; the frames `read` sends as written do not (`FramesAsWrittenRejected`). |
| RequestFrames.Sgp30AddressNotListed | src/Peripherals/modbus.c:21 | 0x05 is not in the firmware's slave table, so every SGP30 frame takes the invalid-address path. |
| DataStore.Appended | src/Master/data_store.py:10-13 | add adds the sensor's key and appends to that sensor's entry; every other entry is unchanged. |
| DataStore.AppendedNew | src/Master/data_store.py:7 | A new sensor gets times `[t]` and values `[v]` from the default factory. |
| DataStore.AppendedGrows | src/Master/data_store.py:12-13 | Each list grows by exactly one element at its end, and the old elements are kept. |
| DataStore.AppendedBalanced | src/Master/data_store.py:12-13 | `len(times) == len(values)` for every sensor is preserved. |
| DataStore.ReplayKeys | src/Master/data_store.py:7-13 | After any run of adds, the store has an entry exactly for the sensors added to. |
| DataStore.ReplayEntry | src/Master/data_store.py:10-13 | After any run of adds, each entry lists that sensor's times and values in call order. |
| DataStore.ReplayBalanced | src/Master/data_store.py:7-13 | Any run of adds leaves every entry balanced. |
| DataStore.SensorDataStore.constructor | src/Master/data_store.py:6-7 | A new store is empty. |
| DataStore.SensorDataStore.Add | src/Master/data_store.py:10-13 | The contents become `Appended(old contents, sensor, time, value)`, and the invariant holds. Existing entry objects are kept, so an earlier dump sees the new sample. |
| DataStore.SensorDataStore.Lookup | src/Master/data_store.py:12 | `self.data[sensor]` on the defaultdict inserts an empty entry when the sensor is missing. |
| DataStore.SensorDataStore.AppendTo | src/Master/data_store.py:12-13 | The two in-place appends change only that sensor's entry. |
| DataStore.SensorDataStore.Dump | src/Master/data_store.py:15-17 | Returns a new map with the same keys and the same entry objects (a shallow copy), and changes nothing. |

## Left out

- Interrupt preemption and `volatile`: the interrupts and the main loop are sequential
  method calls (`ApplyEvents` interleaves them in any order). Single-producer/single-consumer
  safety is a concurrency argument that this model does not make.
- Debug output is not modelled: the `snprintf`/`USART2_write_buffer` calls in modbus.c and
  dht22.c, and the GPIO LED writes in `MODBUS_CheckAddress` and `DHT22_IRQHandler`.
- `MODBUS_ReadSensor` is empty and has no return value, so no response is modelled; the
  `ValidRequest` outcome marks the point where it is called. `MODBUS_ProcessInvalidFrame`
  only prints, so it is the `InvalidAddress` outcome.
- `DHT22_start`, `DHT22_wait_response` and the SysTick wait loop of `DHT22_read`
  (dht22.c:37-59) are register writes and hardware polls. `FinishRead` starts once the
  wait has ended, with whatever status the capture holds then. Writing `EXTI->IMR` at
  dht22.c:63 is a register write.
- `DHT22_read` returns `DHT_READY` after a checksum mismatch. The model keeps this
  behaviour and reports the mismatch in `checksumOk` in place of the log message.
- Register bring-up (usart.c, gpio.c, i2c.c, adc.c, timers.c except ARR), the Sensirion
  I2C wrappers, lmt84lp.c and nsl19m51.c, main.c and the headers are not part of this model.
- On the host, the serial `Master` class other than `compute_crc`, `Sensor.read_sensor`
  (serial I/O), sensor_data_collector.py, app.py and the JavaScript UI are not part of
  this model. `SGP30.read` is modelled as the choice of frame only; sending it and reading
  seven bytes back is I/O.
- The lock in data_store.py guards concurrent access, which is not modelled.
- Sensor values are Python floats; the store holds them as `real`, since it only appends
  and copies them. Time stamps are modelled as strings, the type `add` declares; its caller
  (sensor_data_collector.py:26) passes a float, which the store also only appends and copies.
- Dht22.Capture.Valid: assumes BIT_COUNT ≤ 255. index is a `uint8_t`, so a larger
  BIT_COUNT would make `index++` wrap; that path is not modelled.
- ModbusSlave.Slave.Valid: assumes 2 ≤ F ≤ 255. `frame_index` is a `uint8_t`, and the
  trailer check reads two bytes.
- Dht22.Capture.FinishRead: requires (BIT_COUNT - 1)/8 ≤ 5, the bound under which the
  corrected decoder's writes fit the 5-byte `byte_list`. For larger BIT_COUNT the source
  overruns the stack buffer, and that path is not modelled.
- Dht22.Capture.Edge: uses the corrected width, `ElapsedTicks` (see Findings); the
  handler's own width is `PulseWidthAsWritten`.
- Dht22.Step: a falling edge stores the corrected width `StoredWidth` (see Findings). It agrees with
  the handler's own width except across a counter wrap, where it is one tick more (`StoredWidthAsWritten`).
- Dht22.TrainPrefix: the widths it fills in are the corrected `StoredWidth`, as for `Step`.
- Dht22.TrainCaptures: the captured widths are the corrected `StoredWidth`, as for `Step`.
- Dht22.PulseMidway: the stored slot holds the corrected `StoredWidth`, as for `Step`.
- Dht22.PulseLast: the last slot holds the corrected `StoredWidth`, as for `Step`.
- Dht22.ByteList: holds the corrected decoder's (BIT_COUNT - 1)/8 bytes, where the loop at
  dht22.c:144 packs BIT_COUNT/8 (`DecodedAsWritten`). With BIT_COUNT = 40 byte 4 stays 0, so
  `checksumOk` in `FinishRead` compares the checksum of bytes 0-3 against 0. When BIT_COUNT is
  not a multiple of 8 the two decoders agree (`AsWrittenAgreesOffByteBoundary`).
- Dht22.Capture.DecodeCapture: uses the corrected decoder, with the same consequence as for
  `ByteList`.
- RequestFrames.SelectedFrameAccepted: holds for the corrected frames of `SelectFrame`. The frames
  `SGP30.read` sends as written fail the trailer check (`FramesAsWrittenRejected`).
- Dht22.DecodePulses: stops at `pulses[BIT_COUNT - 1]` (see Findings), so it packs
  (BIT_COUNT - 1)/8 bytes. The loop as written is `DecodedAsWritten`.
- Sensors.SelectFrame: selects the low-byte-first frames (see Findings). The frames as
  written are `Co2FrameAsWritten` and `VocFrameAsWritten`.
- Sensors.ConvertRoundTrip: takes the register value as its two bytes. That a value
  below 2^16 splits into such bytes is the third ensures of `Convert`.
- Several counts are uint8_t/uint16_t in C and unbounded here: the CRC loop counter, the
  ring cursors (kept in [0, N) by the contracts) and the DHT22 `current_byte`, which never
  holds more than 8 bits. The truncating casts that matter are written out: `Truncate`,
  `Checksum`, and the bv16 and bv8 CRC arithmetic.
- The firmware's slave table does not contain the SGP30 address 0x05, which the host
  polls. `RequestFrames.Sgp30AddressNotListed` states this. Another firmware build may
  serve that address, so it is not listed as a finding.

## Findings

| source | as written | input that shows it | evidently intended | confidence | as-written member | corrected member |
|---|---|---|---|---|---|---|
| src/Sensors/dht22.c:185 | `0xFFFF - last_time + now` across the counter wrap, one tick short, since TIM2 counts 0xFFFF → 0 (ARR = 0xFFFF) | rise at 0xFFF0, fall at 0x0005: width 20 (a 1 bit) in place of 21 (a 0 bit) | `(now - last_time) mod 2^16` | not executed | Dht22.PulseWidthAsWritten, Dht22.WrapFlipsBit | Dht22.Capture.Edge |
| src/Sensors/dht22.c:144 | `for (bit = 1; bit <= BIT_COUNT; bit++)` reads `pulses[BIT_COUNT]`, one past the array declared at line 5 | BIT_COUNT = 40: the checksum's last bit comes from the byte after `pulses[]`, so two captures that agree on all 40 widths give different checksums | read `pulses[1 .. BIT_COUNT-1]` only (or declare BIT_COUNT + 1 widths) | not executed | Dht22.DecodedAsWritten, Dht22.AsWrittenReadsPastCapture | Dht22.DecodePulses |
| src/Master/sensors.py:43 | CO2 frame trailer `8E 61` and VOC trailer `8E 91` (line 45): the CRC high byte first | CRC16(05 04 00 01 00 01) = 0x8E61; the slave compares the low byte at F-2, so it reports a checksum error | trailers `61 8E` and `91 8E`, low byte first as for master.py:12 | not executed | Sensors.Co2FrameAsWritten, RequestFrames.FramesAsWrittenRejected | Sensors.RequestFrame |
