/** The value conversions shared by both revisions of the driver: transmit
    power and RSSI as signed 16-bit big-endian hundredths of a dBm, and the
    antenna enable bits. Power is carried as an integer number of centi-dBm
    (hundredths of a dBm), the value the source obtains as `int(dbm * 100)`. */
module Codec {
  import opened Outcome
  import opened Bytes

  /** `int.from_bytes(b, byteorder='big', signed=True)`, the integer part of
      `hex_to_dbm` (which then divides by 100.0): two's complement of any
      length, so that one byte `FF` is -1 and the empty sequence is 0. */
  function HexToDbm(b: Bytes): (r: int)
    ensures |b| == 0 ==> r == 0
    ensures |b| > 0 ==> -128 * Pow256(|b| - 1) <= r < 128 * Pow256(|b| - 1)
    ensures |b| > 0 ==> (r < 0 <==> b[0] >= 0x80)
  {
    if b == [] then 0
    else
      var p := Pow256(|b| - 1);
      var hi: int := b[0];
      FromBytesLeading(b);
      SignBound(hi, p);
      FromBytes(b) - (if hi >= 0x80 then 256 * p else 0)
  }

  lemma SignBound(hi: int, p: nat)
    requires 0 <= hi < 256
    ensures hi >= 0x80 ==> 128 * p <= hi * p <= 255 * p
    ensures hi < 0x80 ==> 0 <= hi * p <= 127 * p
  {
    if hi >= 0x80 {
      assert (hi - 128) * p >= 0 && (255 - hi) * p >= 0;
    } else {
      assert hi * p >= 0 && (127 - hi) * p >= 0;
    }
  }

  /** `dbm_to_hex` on centi-dBm: `value.to_bytes(2, byteorder='big',
      signed=True)`, which raises OverflowError outside [-32768, 32767]. */
  function DbmToHex(centi: int): (r: Result<Bytes>)
    ensures r.Ok? <==> -0x8000 <= centi <= 0x7FFF
    ensures r.Ok? ==> |r.value| == 2 && HexToDbm(r.value) == centi
  {
    if -0x8000 <= centi <= 0x7FFF then
      var u := if centi < 0 then centi + 0x1_0000 else centi;
      var b := [u / 256, u % 256];
      FromBytesTwo(b);
      Ok(b)
    else Err(Overflow)
  }

  /** Every two bytes are the encoding of the value they decode to, so the
      two conversions are mutually inverse on the 16-bit range. */
  lemma DbmToHexOfHexToDbm(b: Bytes)
    requires |b| == 2
    ensures DbmToHex(HexToDbm(b)) == Ok(b)
  {
    FromBytesTwo(b);
    var v := HexToDbm(b);
    var u := if v < 0 then v + 0x1_0000 else v;
    assert u == b[0] as int * 256 + b[1];
    assert [u / 256, u % 256] == b;
  }

  /** `(ant_1 << 0) | (ant_2 << 1) | (ant_3 << 2) | (ant_4 << 3)`: bit i is
      set exactly when antenna i + 1 is enabled. */
  function AntennaMask(ant1: bool, ant2: bool, ant3: bool, ant4: bool): (m: byte)
    ensures m <= 0x0F
    ensures (m % 2 == 1) == ant1
    ensures (m / 2 % 2 == 1) == ant2
    ensures (m / 4 % 2 == 1) == ant3
    ensures (m / 8 % 2 == 1) == ant4
  {
    (if ant1 then 1 else 0) + (if ant2 then 2 else 0)
      + (if ant3 then 4 else 0) + (if ant4 then 8 else 0)
  }

  /** Different antenna selections give different masks. */
  lemma AntennaMaskInjective(a: seq<bool>, b: seq<bool>)
    requires |a| == 4 && |b| == 4
    requires AntennaMask(a[0], a[1], a[2], a[3]) == AntennaMask(b[0], b[1], b[2], b[3])
    ensures a == b
  {
  }
}
