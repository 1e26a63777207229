/** The driver class `RFIDReader` of RFID_Project/src/module.py, the earlier
    revision: `send_command` returns the first line read after the write,
    the antenna payload carries no padding, and it adds dwell-time control,
    a timed read, and an inventory read that joins `cycles + 1` further lines
    to the first response. The payloads it shares with the later revision
    (power, inventory start, stop, reset) are taken from module Reader. */
module LegacyReader {
  import opened Outcome
  import opened Bytes
  import opened Frame
  import opened Codec
  import opened TagScan
  import opened Transport
  import Reader

  const GET_ANTENNA: byte := 0x2A
  const SET_DWELL_TIME: byte := 0x3C
  const GET_DWELL_TIME: byte := 0x3E
  const TIMED_READ: byte := 0x90

  /** One `send_command` of this revision: the frame is appended to the
      write log and exactly one line is read. */
  ghost predicate Sent(q0: seq<Bytes>, w0: seq<Bytes>, q1: seq<Bytes>, w1: seq<Bytes>, cmd: Bytes, response: Bytes) {
    && BuildFrame(cmd).Ok?
    && w1 == w0 + [BuildFrame(cmd).value]
    && response == NextLine(q0)
    && q1 == Drop(q0, 1)
  }

  /* ---------------- Command payloads ---------------- */

  /** `set_antenna`: 28 ‖ mask; `save` is accepted and ignored. */
  function SetAntennaCommand(ant1: bool, ant2: bool, ant3: bool, ant4: bool): (c: Bytes)
    ensures |c| == 2 && c[0] == Reader.SET_ANTENNA && c[1] <= 0x0F
    ensures (c[1] % 2 == 1) == ant1 && (c[1] / 2 % 2 == 1) == ant2
    ensures (c[1] / 4 % 2 == 1) == ant3 && (c[1] / 8 % 2 == 1) == ant4
  {
    [Reader.SET_ANTENNA, AntennaMask(ant1, ant2, ant3, ant4)]
  }

  /** The two revisions put the same mask in different places: the later
      one pads it with two zero bytes. */
  lemma AntennaPayloadsAgree(ant1: bool, ant2: bool, ant3: bool, ant4: bool)
    ensures Reader.SetAntennaCommand(ant1, ant2, ant3, ant4)
      == SetAntennaCommand(ant1, ant2, ant3, ant4)[..1] + [0x00, 0x00] + SetAntennaCommand(ant1, ant2, ant3, ant4)[1..]
  {
  }

  const GetAntennaCommand: Bytes := [GET_ANTENNA]

  /** Software reset and get-antenna are the same request in this revision:
      the frames are byte for byte identical, so the device cannot tell them
      apart. */
  lemma ResetIsGetAntenna()
    ensures Reader.SoftwareResetCommand == GetAntennaCommand
    ensures BuildFrame(Reader.SoftwareResetCommand) == BuildFrame(GetAntennaCommand)
  {
  }

  /** `set_dwell_time`: 3C ‖ (01 if saved, else 00) ‖ work(2) ‖ wait(2), big-
      endian milliseconds; `to_bytes` raises OverflowError for either time
      outside [0, 65535]. */
  function SetDwellTimeCommand(timeOn: int, timeOff: int, save: bool): (r: Result<Bytes>)
    ensures r.Ok? <==> 0 <= timeOn <= 0xFFFF && 0 <= timeOff <= 0xFFFF
    ensures r.Err? ==> r.error == Overflow
    ensures r.Ok? ==>
      && |r.value| == 6 && r.value[0] == SET_DWELL_TIME
      && r.value[1] == (if save then 0x01 else 0x00)
      && FromBytes(r.value[2..4]) == timeOn && FromBytes(r.value[4..6]) == timeOff
  {
    var work :- ToBytes2(timeOn);
    var wait :- ToBytes2(timeOff);
    var c := [SET_DWELL_TIME] + [if save then 0x01 else 0x00] + work + wait;
    assert c[2..4] == work && c[4..6] == wait;
    Ok(c)
  }

  const GetDwellTimeCommand: Bytes := [GET_DWELL_TIME]

  /** `get_dwell_time`: `int.from_bytes` of bytes 6..7 and 8..9 of the
      response, big-endian and unsigned; a short response gives short (or
      empty, hence zero) fields. */
  function DwellTimeOf(response: Bytes): (times: (nat, nat))
    ensures times.0 <= 0xFFFF && times.1 <= 0xFFFF
    ensures |response| >= 10 ==> ToBytes2(times.0) == Ok(response[6..8]) && ToBytes2(times.1) == Ok(response[8..10])
  {
    var on := Slice(response, 6, 8);
    var off := Slice(response, 8, 10);
    DwellField(on);
    DwellField(off);
    (FromBytes(on), FromBytes(off))
  }

  lemma DwellField(field: Bytes)
    requires |field| <= 2
    ensures FromBytes(field) <= 0xFFFF
    ensures |field| == 2 ==> ToBytes2(FromBytes(field)) == Ok(field)
  {
    if |field| == 2 {
      ToBytes2OfFromBytes(field);
    } else if |field| == 1 {
      assert Pow256(1) == 256;
    }
  }

  /** A response that echoes the set-dwell-time payload from offset 4, as a
      frame does, reads back the times that were set. */
  lemma DwellTimeRoundTrip(timeOn: int, timeOff: int, save: bool)
    requires 0 <= timeOn <= 0xFFFF && 0 <= timeOff <= 0xFFFF
    ensures DwellTimeOf(BuildFrame(SetDwellTimeCommand(timeOn, timeOff, save).value).value) == (timeOn, timeOff)
  {
    var c := SetDwellTimeCommand(timeOn, timeOff, save).value;
    var f := BuildFrame(c).value;
    assert f[4..|f| - 3] == c;
    assert f[6..8] == c[2..4] && f[8..10] == c[4..6];
  }

  /** `timed_read`: the range check on [10, 30000] ms, then 90 ‖ time(2). */
  function TimedReadCommand(time: int): (r: Result<Bytes>)
    ensures r.Ok? <==> 10 <= time <= 30000
    ensures r.Err? ==> r.error == InvalidArgument
    ensures r.Ok? ==> |r.value| == 3 && r.value[0] == TIMED_READ && FromBytes(r.value[1..3]) == time
  {
    if !(10 <= time <= 30000) then Err(InvalidArgument)
    else
      var t := ToBytes2(time).value;
      var c := [TIMED_READ] + t;
      assert c[1..3] == t;
      Ok(c)
  }

  /** The tag count of a timed read: `int.from_bytes(response[5:9])`, an
      unsigned 32-bit big-endian value. */
  function TagCountOf(response: Bytes): (count: nat)
    ensures count < 0x1_0000_0000
    ensures |response| >= 9 ==> count == FromBytes(response[5..9])
  {
    var field := Slice(response, 5, 9);
    Pow256Monotone(|field|, 4);
    FromBytes(field)
  }

  lemma Pow256Monotone(m: nat, n: nat)
    requires m <= n
    ensures Pow256(m) <= Pow256(n)
  {
    if m < n {
      Pow256Monotone(m, n - 1);
    }
  }

  /* ---------------- The reader ---------------- */

  class RfidReader {
    const ser: Port

    /** The port is in a valid state and reads up to LF, as `readline()` does. */
    ghost predicate Valid()
      reads this, ser
    {
      ser.Valid() && ser.eol == LF
    }

    constructor (port: Port)
      requires port.Valid() && port.eol == LF
      ensures ser == port && Valid()
    {
      ser := port;
    }

    /** `send_command`: build and write one frame, return the next line, up
        to and including its LF. */
    method SendCommand(cmd: Bytes) returns (r: Result<Bytes>)
      requires Valid()
      modifies ser
      ensures Valid()
      ensures r.Err? <==> BuildFrame(cmd).Err?
      ensures r.Err? ==> r.error == Overflow && ser.input == old(ser.input) && ser.written == old(ser.written)
      ensures r.Ok? ==> Sent(old(ser.input), old(ser.written), ser.input, ser.written, cmd, r.value)
    {
      var encoded := Reader.EncodeFrame(cmd);
      if encoded.Err? {
        return Err(Overflow);
      }
      ser.Write(encoded.value);
      var response := ser.ReadLine();
      r := Ok(response);
    }

    /** `set_power`: the range error before any I/O; then the transaction,
        whose response must reach index 5 (the source prints a message
        depending on that byte, which raises IndexError when it is absent). */
    method SetPower(centi: int, save: bool) returns (r: Result<Bytes>)
      requires Valid()
      modifies ser
      ensures Valid()
      ensures !(100 <= centi <= 3000) ==> r == Err(InvalidArgument) && unchanged(ser)
      ensures 100 <= centi <= 3000 ==>
        && Sent(old(ser.input), old(ser.written), ser.input, ser.written,
                Reader.SetPowerCommand(centi, save).value, NextLine(old(ser.input)))
        && (r.Ok? <==> |NextLine(old(ser.input))| > 5)
        && (r.Ok? ==> r.value == NextLine(old(ser.input)))
        && (r.Err? ==> r.error == IndexOutOfRange)
    {
      var cmd := Reader.SetPowerCommand(centi, save);
      if cmd.Err? {
        return Err(InvalidArgument);
      }
      ghost var frame := Reader.Framed(cmd.value);
      var response := SendCommand(cmd.value);
      if |response.value| <= 5 {
        return Err(IndexOutOfRange);
      }
      r := response;
    }

    method GetPower() returns (centi: int)
      requires Valid()
      modifies ser
      ensures Valid()
      ensures Sent(old(ser.input), old(ser.written), ser.input, ser.written, Reader.GetPowerCommand, NextLine(old(ser.input)))
      ensures centi == Reader.PowerOf(NextLine(old(ser.input)))
    {
      var response := SendCommand(Reader.GetPowerCommand);
      centi := Reader.PowerOf(response.value);
    }

    method SetAntenna(ant1: bool, ant2: bool, ant3: bool, ant4: bool) returns (response: Bytes)
      requires Valid()
      modifies ser
      ensures Valid()
      ensures Sent(old(ser.input), old(ser.written), ser.input, ser.written, SetAntennaCommand(ant1, ant2, ant3, ant4), response)
    {
      var r := SendCommand(SetAntennaCommand(ant1, ant2, ant3, ant4));
      response := r.value;
    }

    method GetAntenna() returns (response: Bytes)
      requires Valid()
      modifies ser
      ensures Valid()
      ensures Sent(old(ser.input), old(ser.written), ser.input, ser.written, GetAntennaCommand, response)
    {
      var r := SendCommand(GetAntennaCommand);
      response := r.value;
    }

    method SetDwellTime(timeOn: int, timeOff: int, save: bool) returns (r: Result<Bytes>)
      requires Valid()
      modifies ser
      ensures Valid()
      ensures SetDwellTimeCommand(timeOn, timeOff, save).Err? ==> r == Err(Overflow) && unchanged(ser)
      ensures SetDwellTimeCommand(timeOn, timeOff, save).Ok? ==>
        && r.Ok?
        && Sent(old(ser.input), old(ser.written), ser.input, ser.written, SetDwellTimeCommand(timeOn, timeOff, save).value, r.value)
    {
      var cmd := SetDwellTimeCommand(timeOn, timeOff, save);
      if cmd.Err? {
        return Err(Overflow);
      }
      ghost var frame := Reader.Framed(cmd.value);
      r := SendCommand(cmd.value);
    }

    method GetDwellTime() returns (timeOn: nat, timeOff: nat)
      requires Valid()
      modifies ser
      ensures Valid()
      ensures Sent(old(ser.input), old(ser.written), ser.input, ser.written, GetDwellTimeCommand, NextLine(old(ser.input)))
      ensures (timeOn, timeOff) == DwellTimeOf(NextLine(old(ser.input)))
    {
      var response := SendCommand(GetDwellTimeCommand);
      timeOn, timeOff := DwellTimeOf(response.value).0, DwellTimeOf(response.value).1;
    }

    method TimedRead(time: int) returns (r: Result<nat>)
      requires Valid()
      modifies ser
      ensures Valid()
      ensures !(10 <= time <= 30000) ==> r == Err(InvalidArgument) && unchanged(ser)
      ensures 10 <= time <= 30000 ==>
        && Sent(old(ser.input), old(ser.written), ser.input, ser.written, TimedReadCommand(time).value, NextLine(old(ser.input)))
        && r == Ok(TagCountOf(NextLine(old(ser.input))))
    {
      var cmd := TimedReadCommand(time);
      if cmd.Err? {
        return Err(InvalidArgument);
      }
      ghost var frame := Reader.Framed(cmd.value);
      var response := SendCommand(cmd.value);
      r := Ok(TagCountOf(response.value));
    }

    /** The loop of `inventory_read`: a line is appended to the response
        each turn, and the loop stops once its counter exceeds `n`. */
    method JoinLines(first: Bytes, n: nat) returns (response: Bytes)
      requires Valid()
      modifies ser
      ensures Valid() && ser.written == old(ser.written)
      ensures response == first + Joined(old(ser.input), n + 1)
      ensures ser.input == Drop(old(ser.input), n + 1)
    {
      ghost var q := ser.input;
      response := first;
      var stop := false;
      var loop := 0;
      while !stop
        invariant Valid() && ser.written == old(ser.written)
        invariant 0 <= loop <= n + 1 && (stop <==> loop > n)
        invariant response == first + Joined(q, loop)
        invariant ser.input == Drop(q, loop)
        decreases n + 1 - loop
      {
        var line := ser.ReadLine();
        DropDrop(q, loop, 1);
        assert Joined(q, loop + 1) == Joined(q, loop) + line;
        AppendAssoc(first, Joined(q, loop), line);
        response := response + line;
        loop := loop + 1;
        if loop > n {
          stop := true;
        }
      }
    }

    /** `inventory_read`: the start transaction, then `cycles + 1` more lines
        joined to its response, decoded into tag records. Without a cycle
        count the source's loop never ends; the model returns StillReading
        once the request is sent. */
    method InventoryRead(cycles: Option<int>) returns (r: Result<seq<TagRecord>>)
      requires Valid()
      modifies ser
      ensures Valid()
      ensures Reader.ReadStartCommand(cycles).Err? ==> r == Err(Overflow) && unchanged(ser)
      ensures Reader.ReadStartCommand(cycles).Ok? ==>
        && ser.written == old(ser.written) + [Reader.Framed(Reader.ReadStartCommand(cycles).value)]
        && if cycles.None? then
             r == Err(StillReading) && ser.input == Drop(old(ser.input), 1)
           else
             var lines := cycles.value + 2;
             && r == Ok(TagRecords(Joined(old(ser.input), lines)))
             && ser.input == Drop(old(ser.input), lines)
    {
      var cmd := Reader.ReadStartCommand(cycles);
      if cmd.Err? {
        return Err(Overflow);
      }
      ghost var frame := Reader.Framed(cmd.value);
      ghost var q := ser.input;
      var first := SendCommand(cmd.value);
      var response := first.value;
      assert Joined(q, 1) == NextLine(q);
      if cycles.None? {
        return Err(StillReading);
      }
      response := JoinLines(response, cycles.value);
      JoinedConcat(q, 1, cycles.value + 1);
      DropDrop(q, 1, cycles.value + 1);
      assert response == Joined(q, cycles.value + 2);
      var inventory := ParseTagData(response);
      r := Ok(inventory);
    }

    /** `read_stop`: the stop transaction (the global flag it also sets is
        read by no loop of this class). */
    method ReadStop() returns (response: Bytes)
      requires Valid()
      modifies ser
      ensures Valid()
      ensures Sent(old(ser.input), old(ser.written), ser.input, ser.written, Reader.ReadStopCommand, response)
    {
      var r := SendCommand(Reader.ReadStopCommand);
      response := r.value;
    }

    method SoftwareReset() returns (response: Bytes)
      requires Valid()
      modifies ser
      ensures Valid()
      ensures Sent(old(ser.input), old(ser.written), ser.input, ser.written, Reader.SoftwareResetCommand, response)
    {
      var r := SendCommand(Reader.SoftwareResetCommand);
      response := r.value;
    }
  }
}
