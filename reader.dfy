/** The driver class `RFIDReader` of src/module.py: the command payloads it
    builds, `send_command` with its response-correlation loop, and the
    inventory burst of `read_start`. */
module Reader {
  import opened Outcome
  import opened Bytes
  import opened Frame
  import opened Codec
  import opened TagScan
  import opened Transport

  const SET_POWER: byte := 0x10
  const GET_POWER: byte := 0x12
  const SET_ANTENNA: byte := 0x28
  const SET_RF_MODE: byte := 0x52
  const GET_RF_MODE: byte := 0x54
  const READ_START: byte := 0x82
  const READ_STOP: byte := 0x8C
  /** The same value as get-antenna in the other revision. */
  const SOFTWARE_RESET: byte := 0x2A

  /* ---------------- Correlation of responses ---------------- */

  /** A chunk at which the loop of `send_command` stops: 4 bytes or fewer,
      or byte 4 equal to the expected acknowledgement. */
  predicate EndsExchange(chunk: Bytes, ack: int) {
    |chunk| <= 4 || chunk[4] == ack
  }

  /** The position of the first queued chunk that ends the exchange, or |q|
      when none does. */
  function FirstEnd(q: seq<Bytes>, ack: int): (k: nat)
    ensures k <= |q|
    ensures k < |q| ==> EndsExchange(q[k], ack)
    ensures forall j :: 0 <= j < k ==> !EndsExchange(q[j], ack)
  {
    if q == [] then 0
    else if EndsExchange(q[0], ack) then 0
    else 1 + FirstEnd(q[1..], ack)
  }

  /** The response `send_command` returns and the chunks left queued: the
      first chunk that ends the exchange, everything before it discarded; an
      exhausted queue gives empty bytes. */
  function Exchange(q: seq<Bytes>, ack: int): (Bytes, seq<Bytes>) {
    var k := FirstEnd(q, ack);
    if k < |q| then (q[k], q[k + 1..]) else ([], [])
  }

  /** The returned chunk always ends the exchange, it is the first such
      chunk, and exactly the chunks up to and including it are consumed. */
  lemma ExchangeProperties(q: seq<Bytes>, ack: int)
    ensures EndsExchange(Exchange(q, ack).0, ack)
    ensures Exchange(q, ack).1 == Drop(q, FirstEnd(q, ack) + 1)
    ensures Exchange(q, ack).0 != [] ==> Exchange(q, ack).0 == q[FirstEnd(q, ack)]
  {
  }

  /** A chunk that is not preceded by any stopping chunk and stops itself is
      the one the exchange returns. */
  lemma FirstEndIs(q: seq<Bytes>, ack: int, i: nat)
    requires i <= |q|
    requires forall j :: 0 <= j < i ==> !EndsExchange(q[j], ack)
    requires i < |q| ==> EndsExchange(q[i], ack)
    ensures FirstEnd(q, ack) == i
  {
  }

  /** The exchange once the loop has stopped at position `i`. */
  lemma ExchangeAt(q: seq<Bytes>, ack: int, i: nat)
    requires i <= FirstEnd(q, ack)
    requires i < |q| ==> EndsExchange(q[i], ack)
    ensures Exchange(q, ack) == (if i < |q| then q[i] else [], Drop(q, i + 1))
  {
    assert FirstEnd(q, ack) == i;
    if i < |q| {
      assert Drop(q, i + 1) == q[i + 1..];
    } else {
      assert Drop(q, i + 1) == [];
    }
  }

  /** Byte 4 of the written frame plus one: the acknowledgement awaited. */
  function AckOf(frame: Bytes): int
    requires |frame| > 4
  {
    frame[4] as int + 1
  }

  /** A command that starts with an opcode is acknowledged by opcode + 1. */
  lemma AckIsOpcodePlusOne(cmd: Bytes)
    requires cmd != [] && |cmd| + OVERHEAD <= 0xFFFF
    ensures AckOf(BuildFrame(cmd).value) == cmd[0] as int + 1
  {
    FrameByteFour(cmd);
  }

  /** One `send_command` transaction from queue `q0` and write log `w0` to
      queue `q1` and log `w1`, returning `response`. */
  ghost predicate Transacted(q0: seq<Bytes>, w0: seq<Bytes>, q1: seq<Bytes>, w1: seq<Bytes>, cmd: Bytes, response: Bytes) {
    && BuildFrame(cmd).Ok?
    && var f := BuildFrame(cmd).value;
    && w1 == w0 + [f]
    && (response, q1) == Exchange(q0, AckOf(f))
  }

  /** The frame of a payload of at most 7 bytes, which always fits. */
  function Framed(cmd: Bytes): (f: Bytes)
    requires |cmd| <= 7
    ensures BuildFrame(cmd) == Ok(f) && IsFrameOf(f, cmd)
  {
    BuildFrame(cmd).value
  }

  /** The queue a transaction for such a payload leaves. */
  function QueueAfter(q: seq<Bytes>, cmd: Bytes): seq<Bytes>
    requires |cmd| <= 7
  {
    Exchange(q, AckOf(Framed(cmd))).1
  }

  /* ---------------- Command payloads ---------------- */

  function NvmFlag(save: bool): Bytes {
    if save then [0x20, 0x01] else [0x00, 0x01]
  }

  /** `set_power`: the range check on [1.0, 30.0] dBm, then
      10 ‖ NVM flag ‖ power ‖ power. */
  function SetPowerCommand(centi: int, save: bool): (r: Result<Bytes>)
    ensures r.Ok? <==> 100 <= centi <= 3000
    ensures r.Err? ==> r.error == InvalidArgument
    ensures r.Ok? ==> var c := r.value;
      && |c| == 7 && c[0] == SET_POWER
      && c[1..3] == (if save then [0x20, 0x01] else [0x00, 0x01])
      && HexToDbm(c[3..5]) == centi && c[5..7] == c[3..5]
  {
    if !(100 <= centi <= 3000) then Err(InvalidArgument)
    else
      var p := DbmToHex(centi).value;
      var c := [SET_POWER] + NvmFlag(save) + p + p;
      assert c[3..5] == p && c[5..7] == p;
      Ok(c)
  }

  const GetPowerCommand: Bytes := [GET_POWER]

  /** `get_power`: `hex_to_dbm(response[7:9])`, in centi-dBm. */
  function PowerOf(response: Bytes): (centi: int)
    ensures -0x8000 <= centi <= 0x7FFF
    ensures |response| >= 9 ==> DbmToHex(centi) == Ok(response[7..9])
  {
    var field := Slice(response, 7, 9);
    PowerField(field);
    HexToDbm(field)
  }

  lemma PowerField(field: Bytes)
    requires |field| <= 2
    ensures -0x8000 <= HexToDbm(field) <= 0x7FFF
    ensures |field| == 2 ==> DbmToHex(HexToDbm(field)) == Ok(field)
  {
    if |field| == 2 {
      DbmToHexOfHexToDbm(field);
    } else if |field| == 1 {
      assert Pow256(0) == 1;
    }
  }

  /** `set_antenna`: 28 ‖ 00 00 ‖ mask, bit i of the mask set exactly when
      antenna i + 1 is on. The `save` argument of the source is not used. */
  function SetAntennaCommand(ant1: bool, ant2: bool, ant3: bool, ant4: bool): (c: Bytes)
    ensures |c| == 4 && c[..3] == [SET_ANTENNA, 0x00, 0x00] && c[3] <= 0x0F
    ensures (c[3] % 2 == 1) == ant1 && (c[3] / 2 % 2 == 1) == ant2
    ensures (c[3] / 4 % 2 == 1) == ant3 && (c[3] / 8 % 2 == 1) == ant4
  {
    [SET_ANTENNA, 0x00, 0x00, AntennaMask(ant1, ant2, ant3, ant4)]
  }

  /** `set_RF_mode`: 52 ‖ (00 01 if saved, else 00 00) ‖ the mode byte, which
      is appended only for a mode in {0, 1, 2, 3}. */
  function SetRfModeCommand(mode: int, save: bool): (c: Bytes)
    ensures |c| == if 0 <= mode <= 3 then 4 else 3
    ensures c[..3] == [SET_RF_MODE, 0x00, if save then 0x01 else 0x00]
    ensures 0 <= mode <= 3 ==> c[3] == mode
  {
    var head := [SET_RF_MODE] + (if save then [0x00, 0x01] else [0x00, 0x00]);
    if 0 <= mode <= 3 then head + [mode] else head
  }

  const GetRfModeCommand: Bytes := [GET_RF_MODE, 0x00, 0x00]

  /** `get_RF_mode`: `int(response[7])`, an IndexError for a shorter response. */
  function RfModeOf(response: Bytes): (r: Result<byte>)
    ensures r.Ok? <==> |response| > 7
    ensures r.Err? ==> r.error == IndexOutOfRange
    ensures r.Ok? ==> r.value == response[7]
  {
    if |response| > 7 then Ok(response[7]) else Err(IndexOutOfRange)
  }

  /** A mode byte set by `set_RF_mode` sits at offset 3 of its payload, the
      offset 7 of its frame that `get_RF_mode` would read from an echo. */
  lemma RfModeRoundTrip(mode: int, save: bool)
    requires 0 <= mode <= 3
    ensures RfModeOf(BuildFrame(SetRfModeCommand(mode, save)).value) == Ok(mode)
  {
    var c := SetRfModeCommand(mode, save);
    var f := BuildFrame(c).value;
    assert f[4..|f| - 3] == c;
    assert f[7] == c[3];
  }

  /** `read_start`'s request: 82 ‖ cycles(2, big-endian), 00 00 for `None`;
      `to_bytes` raises OverflowError for a count outside [0, 0xFFFF]. */
  function ReadStartCommand(cycles: Option<int>): (r: Result<Bytes>)
    ensures r.Ok? <==> cycles.None? || 0 <= cycles.value <= 0xFFFF
    ensures r.Err? ==> r.error == Overflow
    ensures r.Ok? ==>
      && |r.value| == 3 && r.value[0] == READ_START
      && FromBytes(r.value[1..3]) == (if cycles.None? then 0 else cycles.value)
  {
    var num :- if cycles.None? then Ok([0x00, 0x00]) else ToBytes2(cycles.value);
    FromBytesTwo([0x00, 0x00]);
    var c := [READ_START] + num;
    assert c[1..3] == num;
    Ok(c)
  }

  const ReadStopCommand: Bytes := [READ_STOP]

  const SoftwareResetCommand: Bytes := [SOFTWARE_RESET]

  /** How many lines `read_start` joins: the first one after the discarded
      line, then `cycles - 1` more. */
  function BurstLines(cycles: int): (n: nat)
    ensures n >= 1 && n >= cycles
    ensures n == cycles || (n == 1 && cycles < 1)
  {
    if cycles > 1 then cycles else 1
  }

  /** The frame `send_command` assembles piece by piece is the one
      `BuildFrame` describes. */
  lemma FrameParts(cmd: Bytes, lenBytes: Bytes, crc: Bytes)
    requires ToBytes2(|cmd| + OVERHEAD) == Ok(lenBytes)
    requires crc == [Crc(lenBytes + cmd)]
    ensures BuildFrame(cmd) == Ok(SOF + lenBytes + cmd + crc + EOF)
    ensures |SOF + lenBytes + cmd + crc + EOF| > 4
  {
  }

  /** The first half of `send_command`, shared by both revisions: the
      length word, the checksum over length and payload, and the frame. */
  method EncodeFrame(cmd: Bytes) returns (r: Result<Bytes>)
    ensures r == BuildFrame(cmd)
    ensures r.Ok? ==> |r.value| > 4
  {
    var length := |cmd| + OVERHEAD;
    var lenBytes := ToBytes2(length);
    if lenBytes.Err? {
      return Err(Overflow);
    }
    var crc := CalculateCrc(lenBytes.value + cmd);
    FrameParts(cmd, lenBytes.value, crc);
    r := Ok(SOF + lenBytes.value + cmd + crc + EOF);
  }

  /* ---------------- The reader ---------------- */

  class RfidReader {
    const ser: Port

    /** The port is in a valid state and reads up to CR LF, as `read_until(b'\r\n')` does. */
    ghost predicate Valid()
      reads this, ser
    {
      ser.Valid() && ser.eol == CRLF
    }

    constructor (port: Port)
      requires port.Valid() && port.eol == CRLF
      ensures ser == port && Valid()
    {
      ser := port;
    }

    /** `send_command`: build and write one frame, give up with empty bytes
        when nothing is waiting, else read chunks until one is 4 bytes or
        shorter or carries byte 4 of the frame plus one at offset 4. */
    method SendCommand(cmd: Bytes) returns (r: Result<Bytes>)
      requires Valid()
      modifies ser
      ensures Valid()
      ensures r.Err? <==> BuildFrame(cmd).Err?
      ensures r.Err? ==> r.error == Overflow && ser.input == old(ser.input) && ser.written == old(ser.written)
      ensures r.Ok? ==> Transacted(old(ser.input), old(ser.written), ser.input, ser.written, cmd, r.value)
      ensures |cmd| <= 7 ==>
        && r.Ok?
        && ser.input == QueueAfter(old(ser.input), cmd)
        && ser.written == old(ser.written) + [Framed(cmd)]
    {
      var encoded := EncodeFrame(cmd);
      if encoded.Err? {
        return Err(Overflow);
      }
      var frame := encoded.value;
      ser.Write(frame);
      var response := AwaitResponse(frame[4] as int + 1);
      r := Ok(response);
    }

    /** The second half of `send_command`: nothing waiting gives empty bytes;
        otherwise chunks are read until one is 4 bytes or shorter or carries
        the acknowledgement `ack` at offset 4, and that chunk is returned. */
    method AwaitResponse(ack: int) returns (response: Bytes)
      requires Valid()
      modifies ser
      ensures Valid() && ser.written == old(ser.written)
      ensures (response, ser.input) == Exchange(old(ser.input), ack)
    {
      ghost var q := ser.input;
      var waiting := ser.InWaiting();
      if !waiting {
        ExchangeAt(q, ack, 0);
        return [];
      }
      response := ser.ReadLine();
      ghost var i := 0;
      while |response| > 4 && response[4] != ack
        invariant Valid() && ser.written == old(ser.written)
        invariant 0 <= i <= FirstEnd(q, ack)
        invariant response == (if i < |q| then q[i] else [])
        invariant ser.input == Drop(q, i + 1)
        decreases |q| - i
      {
        assert i < |q| && !EndsExchange(q[i], ack);
        assert i != FirstEnd(q, ack);
        response := ser.ReadLine();
        i := i + 1;
      }
      ExchangeAt(q, ack, i);
    }

    /** `set_power`: the range error leaves the port untouched; otherwise one
        transaction with the power payload. */
    method SetPower(centi: int, save: bool) returns (r: Result<Bytes>)
      requires Valid()
      modifies ser
      ensures Valid()
      ensures !(100 <= centi <= 3000) ==> r == Err(InvalidArgument) && unchanged(ser)
      ensures 100 <= centi <= 3000 ==>
        && r.Ok?
        && Transacted(old(ser.input), old(ser.written), ser.input, ser.written, SetPowerCommand(centi, save).value, r.value)
    {
      var cmd := SetPowerCommand(centi, save);
      if cmd.Err? {
        return Err(InvalidArgument);
      }
      r := SendCommand(cmd.value);
    }

    /** `get_power`: one transaction, then the power in bytes 7..8 of the response. */
    method GetPower() returns (centi: int)
      requires Valid()
      modifies ser
      ensures Valid()
      ensures exists response ::
        && Transacted(old(ser.input), old(ser.written), ser.input, ser.written, GetPowerCommand, response)
        && centi == PowerOf(response)
    {
      var response := SendCommand(GetPowerCommand);
      centi := PowerOf(response.value);
    }

    method SetAntenna(ant1: bool, ant2: bool, ant3: bool, ant4: bool) returns (response: Bytes)
      requires Valid()
      modifies ser
      ensures Valid()
      ensures Transacted(old(ser.input), old(ser.written), ser.input, ser.written, SetAntennaCommand(ant1, ant2, ant3, ant4), response)
    {
      var r := SendCommand(SetAntennaCommand(ant1, ant2, ant3, ant4));
      response := r.value;
    }

    method SetRfMode(mode: int, save: bool) returns (response: Bytes)
      requires Valid()
      modifies ser
      ensures Valid()
      ensures Transacted(old(ser.input), old(ser.written), ser.input, ser.written, SetRfModeCommand(mode, save), response)
    {
      var r := SendCommand(SetRfModeCommand(mode, save));
      response := r.value;
    }

    method GetRfMode() returns (mode: Result<byte>)
      requires Valid()
      modifies ser
      ensures Valid()
      ensures exists response ::
        && Transacted(old(ser.input), old(ser.written), ser.input, ser.written, GetRfModeCommand, response)
        && mode == RfModeOf(response)
    {
      var r := SendCommand(GetRfModeCommand);
      mode := RfModeOf(r.value);
    }

    method ReadStop() returns (response: Bytes)
      requires Valid()
      modifies ser
      ensures Valid()
      ensures Transacted(old(ser.input), old(ser.written), ser.input, ser.written, ReadStopCommand, response)
      ensures ser.input == QueueAfter(old(ser.input), ReadStopCommand)
      ensures ser.written == old(ser.written) + [Framed(ReadStopCommand)]
    {
      var r := SendCommand(ReadStopCommand);
      response := r.value;
    }

    /** `software_reset`: one transaction with opcode 2A (acknowledged by 2B). */
    method SoftwareReset() returns (response: Bytes)
      requires Valid()
      modifies ser
      ensures Valid()
      ensures Transacted(old(ser.input), old(ser.written), ser.input, ser.written, SoftwareResetCommand, response)
    {
      var r := SendCommand(SoftwareResetCommand);
      response := r.value;
    }

    /** The burst of `read_start`: one line, then `cycles - 1` more appended. */
    method ReadBurst(cycles: int) returns (response: Bytes)
      requires Valid()
      modifies ser
      ensures Valid() && ser.written == old(ser.written)
      ensures response == Joined(old(ser.input), BurstLines(cycles))
      ensures ser.input == Drop(old(ser.input), BurstLines(cycles))
    {
      ghost var burst := ser.input;
      response := ser.ReadLine();
      assert Joined(burst, 1) == NextLine(burst);
      var loop := 0;
      while loop < cycles - 1
        invariant Valid() && ser.written == old(ser.written)
        invariant 0 <= loop <= BurstLines(cycles) - 1
        invariant response == Joined(burst, loop + 1)
        invariant ser.input == Drop(burst, loop + 1)
      {
        var line := ser.ReadLine();
        DropDrop(burst, loop + 1, 1);
        assert Joined(burst, loop + 2) == Joined(burst, loop + 1) + line;
        response := response + line;
        loop := loop + 1;
      }
      assert loop + 1 == BurstLines(cycles);
    }

    /** `read_start`: the start transaction, one discarded line, the burst of
        `BurstLines(cycles)` lines joined, the stop transaction, and the tag
        records decoded from the burst. With `cycles` absent the source's
        `cycles - 1` raises TypeError after the two reads, before any stop. */
    method ReadStart(cycles: Option<int>) returns (r: Result<seq<TagRecord>>)
      requires Valid()
      modifies ser
      ensures Valid()
      ensures ReadStartCommand(cycles).Err? ==> r == Err(Overflow) && unchanged(ser)
      ensures ReadStartCommand(cycles).Ok? ==>
        var start := ReadStartCommand(cycles).value;
        var afterStart := QueueAfter(old(ser.input), start);
        if cycles.None? then
          && r == Err(TypeMismatch)
          && ser.written == old(ser.written) + [Framed(start)]
          && ser.input == Drop(afterStart, 2)
        else
          var burst := Drop(afterStart, 1);
          var n := BurstLines(cycles.value);
          && r == Ok(TagRecords(Joined(burst, n)))
          && ser.written == old(ser.written) + [Framed(start), Framed(ReadStopCommand)]
          && ser.input == QueueAfter(Drop(burst, n), ReadStopCommand)
    {
      var cmd := ReadStartCommand(cycles);
      if cmd.Err? {
        return Err(Overflow);
      }
      ghost var afterStart := QueueAfter(ser.input, cmd.value);
      var started := SendCommand(cmd.value);
      assert ser.input == afterStart;
      ghost var writtenBefore := ser.written;
      r := AfterStart(cycles);
      if cycles.Some? {
        assert writtenBefore + [Framed(ReadStopCommand)] == old(ser.written) + [Framed(cmd.value), Framed(ReadStopCommand)];
      }
    }

    /** The reads of `read_start` after its start transaction: one line
        discarded, then for `None` one more read and the TypeError of
        `cycles - 1`, otherwise the burst, the stop and the records. */
    method AfterStart(cycles: Option<int>) returns (r: Result<seq<TagRecord>>)
      requires Valid()
      modifies ser
      ensures Valid()
      ensures cycles.None? ==>
        && r == Err(TypeMismatch)
        && ser.written == old(ser.written)
        && ser.input == Drop(old(ser.input), 2)
      ensures cycles.Some? ==>
        var burst := Drop(old(ser.input), 1);
        var n := BurstLines(cycles.value);
        && r == Ok(TagRecords(Joined(burst, n)))
        && ser.written == old(ser.written) + [Framed(ReadStopCommand)]
        && ser.input == QueueAfter(Drop(burst, n), ReadStopCommand)
    {
      ghost var q := ser.input;
      var discarded := ser.ReadLine();
      if cycles.None? {
        var first := ser.ReadLine();
        DropDrop(q, 1, 1);
        return Err(TypeMismatch);
      }
      var inventory := BurstAndStop(cycles.value);
      r := Ok(inventory);
    }

    /** The part of `read_start` after the discarded line: the burst of
        `BurstLines(cycles)` lines, the stop transaction, and the records
        decoded from the burst. */
    method BurstAndStop(cycles: int) returns (inventory: seq<TagRecord>)
      requires Valid()
      modifies ser
      ensures Valid()
      ensures inventory == TagRecords(Joined(old(ser.input), BurstLines(cycles)))
      ensures ser.written == old(ser.written) + [Framed(ReadStopCommand)]
      ensures ser.input == QueueAfter(Drop(old(ser.input), BurstLines(cycles)), ReadStopCommand)
    {
      var response := ReadBurst(cycles);
      var stopped := ReadStop();
      inventory := ParseTagData(response);
    }
  }
}
