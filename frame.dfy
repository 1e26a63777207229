/** The command frame both revisions send:
      SOF(A5 5A) ‖ LEN(2, big-endian) ‖ cmd ‖ CRC(1) ‖ EOF(0D 0A)
    where `cmd` starts with the opcode, LEN = |cmd| + 7 is the length of the
    whole frame, and CRC is the XOR of LEN ‖ cmd. */
module Frame {
  import opened Outcome
  import opened Bytes

  const SOF: Bytes := [0xA5, 0x5A]
  const EOF: Bytes := [0x0D, 0x0A]

  /** Bytes a frame adds around its command: SOF, LEN, CRC and EOF. */
  const OVERHEAD: nat := 7

  function Xor(a: byte, b: byte): byte {
    ((a as bv8) ^ (b as bv8)) as int
  }

  lemma BvRoundTrip(v: bv8)
    ensures (v as int) as bv8 == v
  {
  }

  lemma ByteRoundTrip(x: byte)
    ensures (x as bv8) as int == x
  {
  }

  lemma XorLaws(a: byte, b: byte, c: byte)
    ensures Xor(a, Xor(b, c)) == Xor(Xor(a, b), c)
    ensures Xor(a, b) == Xor(b, a)
    ensures Xor(a, a) == 0 && Xor(a, 0) == a
  {
    BvRoundTrip((b as bv8) ^ (c as bv8));
    BvRoundTrip((a as bv8) ^ (b as bv8));
    ByteRoundTrip(a);
  }

  /** The checksum: every byte XOR-ed into an accumulator that starts at 0,
      in order. */
  function Crc(data: Bytes): byte {
    if data == [] then 0 else Xor(Crc(data[..|data| - 1]), data[|data| - 1])
  }

  /** The checksum of a concatenation is the XOR of the parts' checksums, so
      the order in which bytes are folded does not matter. */
  lemma {:induction false} CrcConcat(a: Bytes, b: Bytes)
    ensures Crc(a + b) == Xor(Crc(a), Crc(b))
  {
    if b == [] {
      assert a + b == a;
      XorLaws(Crc(a), 0, 0);
    } else {
      var init, last := b[..|b| - 1], b[|b| - 1];
      assert (a + b)[..|a + b| - 1] == a + init;
      CrcConcat(a, init);
      XorLaws(Crc(a), Crc(init), last);
    }
  }

  /** The regression vector of the source's test, and the empty input. */
  lemma CrcVectors()
    ensures Crc([0xA5, 0x5A, 0x0D, 0x0A]) == 0xF8
    ensures Crc([]) == 0
  {
    var s: Bytes := [0xA5, 0x5A, 0x0D, 0x0A];
    assert s[..3] == [0xA5, 0x5A, 0x0D] && s[..3][..2] == [0xA5, 0x5A];
    assert s[..3][..2][..1] == [0xA5] && [0xA5][..0] == [];
    assert Crc([0xA5]) == 0xA5 by { BvRoundTrip(0xA5); }
    assert Crc([0xA5, 0x5A]) == 0xFF by { BvRoundTrip(0xA5); BvRoundTrip(0x5A); }
    assert Crc([0xA5, 0x5A, 0x0D]) == 0xF2 by { BvRoundTrip(0xFF); BvRoundTrip(0x0D); }
    assert Crc(s) == 0xF8 by { BvRoundTrip(0xF2); BvRoundTrip(0x0A); }
  }

  /** `calculate_crc`: the loop that XORs every byte into `crc` and returns
      it as a one-byte sequence. */
  method CalculateCrc(data: Bytes) returns (crc: Bytes)
    ensures |crc| == 1 && crc[0] == Crc(data)
  {
    var acc: byte := 0;
    for i := 0 to |data|
      invariant acc == Crc(data[..i])
    {
      assert data[..i + 1][..i] == data[..i];
      acc := Xor(acc, data[i]);
    }
    assert data[..|data|] == data;
    crc := [acc];
  }

  /** The layout of a frame carrying `cmd`, stated field by field. */
  predicate IsFrameOf(f: Bytes, cmd: Bytes) {
    && |f| == |cmd| + OVERHEAD
    && f[..2] == SOF
    && FromBytes(f[2..4]) == |f|
    && f[4..|f| - 3] == cmd
    && f[|f| - 3] == Crc(f[2..|f| - 3])
    && f[|f| - 2..] == EOF
  }

  /** The field-by-field layout determines the frame. */
  lemma IsFrameOfUnique(f: Bytes, g: Bytes, cmd: Bytes)
    requires IsFrameOf(f, cmd) && IsFrameOf(g, cmd)
    ensures f == g
  {
    ToBytes2OfFromBytes(f[2..4]);
    ToBytes2OfFromBytes(g[2..4]);
    assert f[2..4] == g[2..4];
    assert f[2..|f| - 3] == g[2..|g| - 3] by {
      assert f[2..|f| - 3] == f[2..4] + f[4..|f| - 3];
      assert g[2..|g| - 3] == g[2..4] + g[4..|g| - 3];
    }
    assert f == f[..2] + f[2..4] + f[4..|f| - 3] + [f[|f| - 3]] + f[|f| - 2..];
    assert g == g[..2] + g[2..4] + g[4..|g| - 3] + [g[|g| - 3]] + g[|g| - 2..];
  }

  /** The first half of `send_command`: LEN = |cmd| + 7 encoded with
      `to_bytes(2, 'big')` (OverflowError when it exceeds 0xFFFF), the CRC
      over LEN ‖ cmd, and the frame SOF ‖ LEN ‖ cmd ‖ CRC ‖ EOF. */
  function BuildFrame(cmd: Bytes): (r: Result<Bytes>)
    ensures r.Ok? <==> |cmd| + OVERHEAD <= 0xFFFF
    ensures r.Ok? ==> IsFrameOf(r.value, cmd)
  {
    var lenBytes :- ToBytes2(|cmd| + OVERHEAD);
    var crc := Crc(lenBytes + cmd);
    var f := SOF + lenBytes + cmd + [crc] + EOF;
    assert f[2..4] == lenBytes && f[4..|f| - 3] == cmd && f[2..|f| - 3] == lenBytes + cmd;
    Ok(f)
  }

  /** XOR-ing LEN, the command and the CRC of a built frame gives 0: the
      checksum a receiver would recompute matches. */
  lemma FrameChecksumCancels(cmd: Bytes)
    requires BuildFrame(cmd).Ok?
    ensures var f := BuildFrame(cmd).value; Crc(f[2..|f| - 2]) == 0
  {
    var f := BuildFrame(cmd).value;
    var body := f[2..|f| - 3];
    assert f[2..|f| - 2] == body + [f[|f| - 3]];
    CrcConcat(body, [f[|f| - 3]]);
    assert [f[|f| - 3]][..0] == [];
    XorLaws(Crc(body), 0, 0);
  }

  /** Byte 4 of a frame, the byte `send_command` correlates on, is the
      opcode when there is one, and the CRC byte 0x07 of LEN = 00 07
      when the command is empty. */
  lemma FrameByteFour(cmd: Bytes)
    requires BuildFrame(cmd).Ok?
    ensures var f := BuildFrame(cmd).value; if cmd == [] then f[4] == 0x07 else f[4] == cmd[0]
  {
    var f := BuildFrame(cmd).value;
    if cmd == [] {
      assert f[2..4] == [0x00, 0x07];
      ToBytes2OfFromBytes(f[2..4]);
      assert f[2..|f| - 3] == [0x00, 0x07];
      assert [0x00, 0x07][..1] == [0x00];
      assert [0x00][..0] == [];
    } else {
      assert f[4..|f| - 3][0] == cmd[0];
    }
  }
}
