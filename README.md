# RFID reader driver: frames, correlation and tag scanning

A model of the byte-level protocol of a Python driver for a UHF RFID reader
module on a serial port, in both revisions of the driver. From a command
payload (an opcode byte and its arguments) the driver builds the frame

    SOF (A5 5A) ‖ LEN (2 bytes, big-endian, |payload| + 7) ‖ payload ‖ CRC (1) ‖ EOF (0D 0A)

where CRC is the XOR of LEN ‖ payload. It writes the frame and reads the
reply. The later revision (`src/module.py`) reads CR LF terminated chunks
until one is 4 bytes or shorter or carries opcode + 1 at offset 4. The
earlier revision (`RFID_Project/src/module.py`) returns the first line it
reads. Inventory bursts are decoded by a scanner that both revisions share:
it looks for the A5 5A marker, reads the PC word, and takes the EPC, RSSI and
antenna fields.

Modules:

- `Outcome`: the driver's exceptions as error values (`ValueError`,
  `OverflowError`, `IndexError`, `TypeError`), plus `Option` and `Result`.
- `Bytes`: octets, Python's clamped slices, `int.from_bytes` and
  `int.to_bytes(2, 'big')`.
- `Codec`: signed 16-bit power and RSSI in hundredths of a dBm, and the
  antenna bit mask.
- `Frame`: the checksum (the `calculate_crc` loop) and the frame layout.
- `TagScan`: `parse_tag_data`, shared by both revisions.
- `Transport`: the serial port. It is a class holding the queue of chunks
  still to be received and a log of the writes. A port has a line
  terminator, and every queued chunk has exactly one terminator, at its end.
  The later revision's `read_until(b'\r\n')` stops at CR LF. The earlier
  revision's `readline()` stops at the first LF, so it can cut a frame
  whose LEN or payload holds a 0A byte.
- `Reader`: the later revision's `RFIDReader`. This includes the command
  payloads and the correlation loop of `send_command`.
- `LegacyReader`: the earlier revision's `RFIDReader`. This includes
  dwell time, `timed_read` and `inventory_read`.

Where the code and its documentation disagree, the model follows the code:

- **0x2A is used twice.** In the earlier revision, `software_reset` and
  `get_antenna` both send opcode 2A, so their frames are identical
  (`LegacyReader.ResetIsGetAntenna`). The later revision keeps 2A for reset.
  The device's intended reset opcode does not appear anywhere in the
  source, so the model keeps 2A and records the collision.
- **`read_start(None)`.** The docstring says this reads indefinitely. In the
  code, `cycles - 1` raises `TypeError` after the start frame and two reads,
  before any stop frame is sent. The model returns that error and leaves
  that state.
- **EPC length.** The length is `((pc >> 11) & 0x1F) * 2` bytes. So PC = 00 10
  declares an empty EPC. The example burst uses PC = 08 00, which declares
  one 16-bit word.
- **Antenna payload.** It is `28 ‖ mask` in the earlier revision and
  `28 ‖ 00 00 ‖ mask` in the later one (`LegacyReader.AntennaPayloadsAgree`).
- **Dwell time without a byte order.** `get_dwell_time` calls
  `int.from_bytes` with no byte order. This is modelled as big-endian, the
  default of current Python.

## Model

| member | source | states |
|---|---|---|
| Bytes.Slice | src/module.py:336-348 | Python's clamped `s[i:j]`: both ends are clamped to the length, a start at or past the end (or not before the end bound) gives empty bytes, and element k is `s[i + k]` |
| Bytes.FromBytes | src/module.py:338 | an unsigned big-endian decode of n bytes is below 256^n |
| Bytes.ToBytes2 | src/module.py:34-35 | `to_bytes(2, 'big')` succeeds exactly on [0, 0xFFFF], with OverflowError otherwise; it gives two bytes that decode back to the value |
| Bytes.ToBytes2OfFromBytes | RFID_Project/src/module.py:238-239 | every two-byte field is the encoding of the number it decodes to |
| Bytes.FromBytesLeading | src/module.py:303 | the leading byte of a big-endian number weighs 256^(n-1) |
| Codec.HexToDbm | src/module.py:293-305 | signed big-endian decode: 0 for no bytes, within ±128·256^(n-1), and negative exactly when the top bit is set |
| Codec.DbmToHex | src/module.py:279-291 | two-byte signed encoding, an OverflowError exactly outside [-32768, 32767]; `HexToDbm` inverts it |
| Codec.DbmToHexOfHexToDbm | src/module.py:279-305 | every two bytes are the encoding of what they decode to, so the two conversions are mutually inverse |
| Codec.AntennaMask | src/module.py:114 | bit i of the mask is set exactly when antenna i+1 is on, and the mask is at most 0x0F |
| Codec.AntennaMaskInjective | src/module.py:114 | different antenna selections give different masks |
| Frame.CrcConcat | src/module.py:317-320 | the checksum of a concatenation is the XOR of the parts' checksums |
| Frame.CrcVectors | src/tests/test_module.py:6-10 | the checksum of A5 5A 0D 0A is F8, and that of no bytes is 0 |
| Frame.CalculateCrc | src/module.py:307-320 | the XOR loop returns one byte, which equals the checksum fold of the data |
| Frame.BuildFrame | src/module.py:34-36 | a frame exists exactly when |payload| + 7 fits in 16 bits; SOF, LEN = frame length, payload, CRC over LEN ‖ payload, EOF |
| Frame.IsFrameOfUnique | src/module.py:34-36 | the field-by-field layout determines the frame |
| Frame.FrameChecksumCancels | src/module.py:35-36 | XOR over LEN, payload and CRC of a built frame is 0 |
| Frame.FrameByteFour | src/module.py:46 | byte 4 of a frame is the opcode, or 07 for an empty payload |
| TagScan.EpcLength | src/module.py:339 | the EPC length is even, at most 62, and equals (pc / 2048) · 2 for a 16-bit PC |
| TagScan.SofTest | src/module.py:336 | the two-byte slice test equals "A5 5A starts here" |
| TagScan.DeclaredEpcLengthOfPc | src/module.py:338-339 | the EPC length from the clamped PC slice equals bits 3..7 of the PC high byte, times 2 |
| TagScan.ResumeAt | src/module.py:340-354 | scanning resumes at least 13 bytes after a marker |
| TagScan.TagReport | src/module.py:336-354 | a well-formed report is 13 bytes plus its EPC |
| TagScan.RecordAt | src/module.py:338-353 | the record at a marker has an EPC of at most 62 bytes, a 16-bit signed RSSI and an antenna number ≤ 255; when the buffer reaches the antenna byte, the EPC has the length PC declares and the EPC, RSSI and antenna are the bytes at their offsets |
| TagScan.FieldsAt | src/module.py:346-353 | the three clamped field slices decode within those bounds and, for a report that is there, equal the bytes at their offsets |
| TagScan.ParseTagData | src/module.py:322-356 | the index/append loop returns exactly the records of the scan specification `TagRecords` |
| TagScan.ParseStep | src/module.py:349-354 | appending the record at a marker and jumping to its end keeps the loop invariant |
| TagScan.RecordsBounded | src/module.py:346-353 | every record has an EPC of at most 62 bytes, a 16-bit signed RSSI and an antenna number ≤ 255 |
| TagScan.ScanEmptyIffNoSof | src/module.py:335-356 | the scan reports nothing exactly when no A5 5A marker occurs |
| TagScan.ScanFindsFirstSof | src/module.py:335-356 | the first record comes from the first marker, and scanning resumes after its trailer |
| TagScan.ScanCountBound | src/module.py:335-356 | each record but the last uses at least 13 bytes |
| TagScan.ScanShift | src/module.py:335-356 | scanning past a prefix at the same relative offset gives the same records |
| TagScan.NoiseIsSkipped | src/module.py:355-356 | a prefix in which no A5 5A marker starts produces no records |
| TagScan.NoA5IsNoise | src/module.py:355-356 | in particular, a prefix without any A5 byte produces no records |
| TagScan.DecodeTagReport | src/module.py:336-354 | decoding a well-formed report yields the EPC, RSSI and antenna put into it, then the records after it |
| TagScan.ExampleReport | src/module.py:336-354 | the burst A5 5A 00 13 83 08 00 11 22 F8 30 02 00 0D 0A gives the single record (11 22, -2000, 2) |
| TagScan.ExampleFields | src/module.py:339 | PC 08 00 declares two EPC bytes, and -20.00 dBm encodes as F8 30 |
| Transport.DropDrop | src/module.py:45-47 | a reads, then b reads, leave the queue that a + b reads leave |
| Transport.JoinedConcat | src/module.py:232-233 | joining a lines and then b more equals joining a + b lines |
| Transport.JoinedIsPrefix | src/module.py:232-233 | while the queue lasts, joined reads are the queued chunks concatenated |
| Transport.NoEolBeforeAll | src/module.py:45 | no terminator occurs below offset n, stated by recursion and as a quantifier, in both directions |
| Transport.Port.constructor | src/module.py:8-9 | a port starts with its terminator (CR LF or LF), the given lines queued and nothing written |
| Transport.Port.Write | src/module.py:37 | the data is appended to the write log and the queue is unchanged |
| Transport.Port.InWaiting | src/module.py:40 | there is data to read exactly when the queue is not empty |
| Transport.Port.ReadLine | src/module.py:45 | returns the next chunk, a line ending at the port's terminator, or empty bytes on an empty queue, and consumes it |
| Reader.FirstEnd | src/module.py:46-47 | the position of the first chunk that stops the loop: every chunk before it continues it |
| Reader.ExchangeProperties | src/module.py:45-49 | the returned chunk stops the loop, and exactly the chunks up to it are consumed |
| Reader.FirstEndIs | src/module.py:46-47 | a stopping chunk with no stopping chunk before it is the first |
| Reader.ExchangeAt | src/module.py:45-49 | the exchange once the loop has stopped at a given position |
| Reader.AckIsOpcodePlusOne | src/module.py:46 | the awaited acknowledgement is opcode + 1 |
| Reader.Framed | src/module.py:34-36 | a payload of at most 7 bytes always frames, with the frame layout |
| Reader.FrameParts | src/module.py:34-36 | the frame assembled from LEN, payload and CRC is `BuildFrame` |
| Reader.EncodeFrame | src/module.py:34-36 | the frame-building half of `send_command` computes `BuildFrame` |
| Reader.SetPowerCommand | src/module.py:63-74 | succeeds exactly for 1.00..30.00 dBm, with ValueError otherwise; 10 ‖ NVM flag (20 01 / 00 01) ‖ power ‖ power, the power decoding back to the request |
| Reader.PowerOf | src/module.py:98 | the power read from bytes 7..8 is a 16-bit value whose encoding is those bytes |
| Reader.PowerField | src/module.py:98 | a clamped field of up to 2 bytes decodes into 16 bits, and 2 bytes re-encode to themselves |
| Reader.SetAntennaCommand | src/module.py:113-115 | 28 00 00 ‖ mask, with bit i set exactly when antenna i+1 is on |
| Reader.SetRfModeCommand | src/module.py:169-184 | 52 00 ‖ save flag, followed by the mode byte only for a mode in 0..3 |
| Reader.RfModeOf | src/module.py:204 | byte 7 of the response, with IndexError exactly when the response has 7 bytes or fewer |
| Reader.RfModeRoundTrip | src/module.py:169-204 | reading offset 7 of the set-mode frame gives back the mode |
| Reader.ReadStartCommand | src/module.py:219-226 | 82 ‖ cycles as two bytes (00 00 for None), with OverflowError exactly outside 0..0xFFFF |
| Reader.BurstLines | src/module.py:230-234 | the number of lines joined is max(cycles, 1) |
| Reader.RfidReader.constructor | src/module.py:8-9 | the reader talks to the given port, which reads up to CR LF |
| Reader.RfidReader.SendCommand | src/module.py:19-49 | OverflowError exactly when no frame exists; otherwise the frame is written and the result is the exchange of the correlation loop |
| Reader.RfidReader.AwaitResponse | src/module.py:39-49 | the response and the remaining queue are those of the correlation specification `Exchange` |
| Reader.RfidReader.SetPower | src/module.py:52-83 | a ValueError leaves the port untouched; otherwise one transaction with the power payload |
| Reader.RfidReader.GetPower | src/module.py:85-100 | one get-power transaction, and the power decoded from its response |
| Reader.RfidReader.SetAntenna | src/module.py:102-119 | one transaction with the mask payload |
| Reader.RfidReader.SetRfMode | src/module.py:155-188 | one transaction with the RF-mode payload |
| Reader.RfidReader.GetRfMode | src/module.py:190-206 | one transaction, and byte 7 of its response or IndexError |
| Reader.RfidReader.ReadStop | src/module.py:246-260 | one transaction with 8C; the queue and log that follow |
| Reader.RfidReader.SoftwareReset | src/module.py:262-276 | one transaction with 2A |
| Reader.RfidReader.ReadBurst | src/module.py:230-234 | the burst joins exactly `BurstLines(cycles)` reads |
| Reader.RfidReader.BurstAndStop | src/module.py:230-240 | the burst of `BurstLines(cycles)` lines, one stop transaction, and the records of the burst |
| Reader.RfidReader.AfterStart | src/module.py:229-236 | one line discarded; for None a second read and TypeError, with nothing written; otherwise the burst, the stop and the records |
| Reader.RfidReader.ReadStart | src/module.py:208-244 | start, one discarded line, the burst, stop; the records of the burst; OverflowError before any I/O; TypeError for None |
| LegacyReader.SetAntennaCommand | RFID_Project/src/module.py:100-102 | 28 ‖ mask, with bit i set exactly when antenna i+1 is on |
| LegacyReader.AntennaPayloadsAgree | RFID_Project/src/module.py:100-102 | the later payload is the earlier one with 00 00 inserted before the mask |
| LegacyReader.ResetIsGetAntenna | RFID_Project/src/module.py:373 | software reset's payload and frame are identical to those of get_antenna (line 120) |
| LegacyReader.SetDwellTimeCommand | RFID_Project/src/module.py:208-218 | 3C ‖ save flag ‖ work(2) ‖ wait(2), with OverflowError exactly when either time is outside 0..65535 |
| LegacyReader.DwellTimeOf | RFID_Project/src/module.py:238-239 | two 16-bit times, re-encoding to bytes 6..7 and 8..9 of the response |
| LegacyReader.DwellField | RFID_Project/src/module.py:238-239 | a clamped two-byte field decodes into 16 bits and re-encodes to itself |
| LegacyReader.DwellTimeRoundTrip | RFID_Project/src/module.py:208-241 | reading the dwell fields of the set-dwell frame gives back the times that were set |
| LegacyReader.TimedReadCommand | RFID_Project/src/module.py:331-336 | succeeds exactly for 10..30000 ms, with ValueError otherwise; 90 ‖ time(2) |
| LegacyReader.TagCountOf | RFID_Project/src/module.py:340 | the tag count is an unsigned 32-bit number, bytes 5..8 big-endian |
| LegacyReader.Pow256Monotone | RFID_Project/src/module.py:340 | a shorter field has a smaller bound |
| LegacyReader.RfidReader.constructor | RFID_Project/src/module.py:5-6 | the reader talks to the given port, which reads up to LF |
| LegacyReader.RfidReader.SendCommand | RFID_Project/src/module.py:16-36 | the frame is written and exactly one LF-terminated line is read and returned |
| LegacyReader.RfidReader.SetPower | RFID_Project/src/module.py:39-70 | ValueError before I/O; otherwise one transaction, with IndexError exactly when the reply has no byte 5 |
| LegacyReader.RfidReader.GetPower | RFID_Project/src/module.py:72-87 | one transaction, and the power decoded from bytes 7..8 of the line |
| LegacyReader.RfidReader.SetAntenna | RFID_Project/src/module.py:89-107 | one transaction with the unpadded mask payload |
| LegacyReader.RfidReader.GetAntenna | RFID_Project/src/module.py:109-124 | one transaction with 2A |
| LegacyReader.RfidReader.SetDwellTime | RFID_Project/src/module.py:196-222 | OverflowError before I/O; otherwise one transaction with the dwell payload |
| LegacyReader.RfidReader.GetDwellTime | RFID_Project/src/module.py:224-241 | one transaction, and the two times decoded from its line |
| LegacyReader.RfidReader.TimedRead | RFID_Project/src/module.py:321-342 | ValueError before I/O; otherwise one transaction and the tag count of its line |
| LegacyReader.RfidReader.JoinLines | RFID_Project/src/module.py:266-271 | the loop appends exactly n + 1 further lines |
| LegacyReader.RfidReader.InventoryRead | RFID_Project/src/module.py:243-275 | the start line plus cycles + 1 further lines, decoded; OverflowError before I/O |
| LegacyReader.RfidReader.ReadStop | RFID_Project/src/module.py:278-295 | one transaction with 8C |
| LegacyReader.RfidReader.SoftwareReset | RFID_Project/src/module.py:363-379 | one transaction with 2A |

## Left out

- Opening and closing the port (`__init__`, `connect`, `disconnect`) and the baud rate: the model's port is a queue of received chunks and a log of writes.
- A chunk that a read timeout cuts short, before its terminator: every queued chunk is a whole line.
- The 10-second timeout of `send_command`: the model reads a single `in_waiting` check, and an empty queue stands for the source's timeout. A read from an empty queue returns empty bytes.
- Reader.RfidReader.AwaitResponse: a chunk that arrives after the first `in_waiting` check but during the wait is not modelled, because time is not modelled.
- Floating point: powers are integer centi-dBm, the value `int(dbm * 100)` computes. The range check is therefore stated on [100, 3000]. Reported RSSI is the raw signed value; the source reports 10 · value / 100.0.
- The `time.sleep(0.1)` and `ser.flush()` of `read_start`: they have no effect the model can observe.
- Printing ("Power set.", "Done reading.", "Reset succeeded."): the model has no output.
- The pandas DataFrame, `epc.hex()` and `epc.decode('utf-8')` that render the records: records keep the EPC as bytes. A `UnicodeDecodeError` on a non-UTF-8 EPC in the earlier revision is therefore not modelled.
- LegacyReader.RfidReader.InventoryRead: with `cycles = None` the source loops forever. The model stops after the start transaction with `StillReading` and does not follow the unbounded reads.
- The global `stop` flag that the earlier `read_stop` sets: no loop of the class reads it.
- `set_gen2_params`, `get_gen2_params`, and the earlier revision's `set_RF_mode` and `get_RF_mode`: these are unfinished stubs in the source.
- `single_read` and `get_timed_read` of the earlier revision: outside the modelled core.
- Checksum validation of received frames: neither revision checks it.
- The scripts `main.py` and `examples.py`: they are callers, not part of the driver.
