/** `parse_tag_data`, the same scanner in both revisions: it walks an
    inventory buffer looking for the SOF marker A5 5A; at a marker it skips
    SOF, LEN and opcode (5 bytes) to a 2-byte PC word, takes
    ((PC >> 11) & 0x1F) * 2 EPC bytes, 2 RSSI bytes and 1 antenna byte, and
    resumes 3 bytes (CRC and EOF) after the antenna byte; elsewhere it
    advances one byte. Every field is a Python slice, so a record cut short
    by the end of the buffer is still reported, with shorter fields. */
module TagScan {
  import opened Outcome
  import opened Bytes
  import opened Codec
  import Frame

  /** One reported tag. `rssi` is the raw signed value in hundredths of a
      dBm; the source reports 10 * rssi / 100.0. The EPC is kept as bytes
      (the source renders it as hex text or decodes it as UTF-8). */
  datatype TagRecord = TagRecord(epc: Bytes, rssi: int, antenna: nat)

  /** Offset of the PC word from the SOF marker: SOF(2) + LEN(2) + opcode(1). */
  const PREAMBLE: nat := 5

  /** CRC(1) + EOF(2) after the antenna byte. */
  const TRAILER: nat := 3

  /** `((pc >> 11) & 0x1F) * 2`: the EPC word count in bits 11..15 of PC, in bytes. */
  function EpcLength(pc: nat): (n: nat)
    ensures n % 2 == 0 && n <= 62
    ensures pc <= 0xFFFF ==> n == pc / 2048 * 2
  {
    ((pc / 2048) % 32) * 2
  }

  /** Whether the SOF marker A5 5A starts at `i`. */
  predicate IsSofAt(data: Bytes, i: nat) {
    i + 1 < |data| && data[i] == 0xA5 && data[i + 1] == 0x5A
  }

  /** The test `parse_tag_data` writes, `data[index:index+2] == SOF`. */
  lemma SofTest(data: Bytes, i: nat)
    ensures Slice(data, i, i + 2) == Frame.SOF <==> IsSofAt(data, i)
  {
    var s := Slice(data, i, i + 2);
    if i + 1 < |data| {
      assert s == [data[i], data[i + 1]];
    } else {
      assert |s| < 2;
    }
  }

  /** The EPC length that the PC word of the record whose marker is at `i`
      declares: bits 11..15 of PC are bits 3..7 of its high byte, and a PC
      word cut short by the end of the buffer reads as less than 2048. */
  function DeclaredEpcLength(data: Bytes, i: nat): nat {
    if i + PREAMBLE + 1 < |data| then data[i + PREAMBLE] / 8 * 2 else 0
  }

  /** That is the length `parse_tag_data` computes from PC. */
  lemma DeclaredEpcLengthOfPc(data: Bytes, i: nat)
    ensures DeclaredEpcLength(data, i) == EpcLength(FromBytes(Slice(data, i + PREAMBLE, i + PREAMBLE + 2)))
  {
    var pcBytes := Slice(data, i + PREAMBLE, i + PREAMBLE + 2);
    if i + PREAMBLE + 1 < |data| {
      var hi: int, lo: int := data[i + PREAMBLE], data[i + PREAMBLE + 1];
      assert pcBytes == [hi, lo];
      FromBytesTwo(pcBytes);
      var a, r := hi / 8, hi % 8;
      assert hi * 256 + lo == 2048 * a + (256 * r + lo);
      HighBits(hi * 256 + lo, a, 256 * r + lo);
    } else if i + PREAMBLE < |data| {
      assert pcBytes == [data[i + PREAMBLE]];
      assert FromBytes(pcBytes) == data[i + PREAMBLE] by {
        assert pcBytes[..0] == [];
      }
    } else {
      assert pcBytes == [];
    }
  }

  lemma HighBits(pc: int, a: int, r: int)
    requires pc == 2048 * a + r && 0 <= r < 2048 && 0 <= a < 32
    ensures pc / 2048 == a && (pc / 2048) % 32 == a
  {
  }

  /** Start of the EPC of the record whose marker is at `i`. */
  function EpcStart(i: nat): nat {
    i + PREAMBLE + 2
  }

  /** Start of the RSSI of the record whose marker is at `i`. */
  function RssiStart(data: Bytes, i: nat): nat {
    EpcStart(i) + DeclaredEpcLength(data, i)
  }

  function EpcField(data: Bytes, i: nat): Bytes {
    Slice(data, EpcStart(i), RssiStart(data, i))
  }

  function RssiField(data: Bytes, i: nat): Bytes {
    Slice(data, RssiStart(data, i), RssiStart(data, i) + 2)
  }

  function AntennaField(data: Bytes, i: nat): Bytes {
    Slice(data, RssiStart(data, i) + 2, RssiStart(data, i) + 3)
  }

  /** The record built from the three fields, as `parse_tag_data` appends it. */
  function MakeRecord(epc: Bytes, rssi: Bytes, antenna: Bytes): TagRecord {
    TagRecord(epc, HexToDbm(rssi), FromBytes(antenna))
  }

  /** The record whose marker is at `i`: an EPC of at most 62 bytes, a
      signed 16-bit RSSI and a one-byte antenna number; when the buffer
      reaches the antenna byte, the EPC has the length PC declares and the
      three fields are the bytes at their offsets. */
  function RecordAt(data: Bytes, i: nat): (r: TagRecord)
    ensures |r.epc| <= 62 && -0x8000 <= r.rssi <= 0x7FFF && r.antenna <= 0xFF
    ensures RssiStart(data, i) + 3 <= |data| ==>
      && |r.epc| == DeclaredEpcLength(data, i)
      && r.epc == data[EpcStart(i)..RssiStart(data, i)]
      && DbmToHex(r.rssi) == Ok(data[RssiStart(data, i)..RssiStart(data, i) + 2])
      && r.antenna == data[RssiStart(data, i) + 2]
  {
    FieldsAt(data, i);
    MakeRecord(EpcField(data, i), RssiField(data, i), AntennaField(data, i))
  }

  /** The decoded fields of the record whose marker is at `i`. */
  lemma FieldsAt(data: Bytes, i: nat)
    ensures var epc, rssi, antenna := EpcField(data, i), RssiField(data, i), AntennaField(data, i);
      && |epc| <= 62 && -0x8000 <= HexToDbm(rssi) <= 0x7FFF && FromBytes(antenna) <= 0xFF
    ensures RssiStart(data, i) + 3 <= |data| ==>
      var rs := RssiStart(data, i);
      && EpcField(data, i) == data[EpcStart(i)..rs]
      && DbmToHex(HexToDbm(RssiField(data, i))) == Ok(data[rs..rs + 2])
      && FromBytes(AntennaField(data, i)) == data[rs + 2]
  {
    var rs := RssiStart(data, i);
    var rssi, antenna := RssiField(data, i), AntennaField(data, i);
    if |rssi| > 0 {
      assert Pow256(|rssi| - 1) <= 256 by {
        if |rssi| == 2 { assert Pow256(1) == 256 * Pow256(0); }
      }
    }
    if rs + 3 <= |data| {
      assert EpcField(data, i) == data[EpcStart(i)..rs];
      assert rssi == data[rs..rs + 2];
      DbmToHexOfHexToDbm(rssi);
      assert antenna == [data[rs + 2]] && antenna[..0] == [];
    }
  }

  /** Where scanning resumes after the record whose marker is at `i`. */
  function ResumeAt(data: Bytes, i: nat): (j: nat)
    ensures j >= i + 13
  {
    RssiStart(data, i) + 2 + 1 + TRAILER
  }

  /** The records that scanning from `index` on reports. */
  function ScanFrom(data: Bytes, index: nat): seq<TagRecord>
    decreases |data| - index
  {
    if index >= |data| then []
    else if IsSofAt(data, index) then [RecordAt(data, index)] + ScanFrom(data, ResumeAt(data, index))
    else ScanFrom(data, index + 1)
  }

  function TagRecords(data: Bytes): seq<TagRecord> {
    ScanFrom(data, 0)
  }

  /** `parse_tag_data` without its final DataFrame: the index/append loop. */
  method ParseTagData(data: Bytes) returns (parsed: seq<TagRecord>)
    ensures parsed == TagRecords(data)
  {
    var index: nat := 0;
    parsed := [];
    while index < |data|
      invariant parsed + ScanFrom(data, index) == TagRecords(data)
      decreases |data| - index
    {
      SofTest(data, index);
      if Slice(data, index, index + 2) == Frame.SOF {
        ghost var sof := index;
        DeclaredEpcLengthOfPc(data, sof);
        index := index + PREAMBLE;
        var pc := FromBytes(Slice(data, index, index + 2));
        var epcLength := EpcLength(pc);
        var epcStart := index + 2;
        var epcEnd := epcStart + epcLength;
        var rssiStart := epcEnd;
        var rssiEnd := rssiStart + 2;
        var antennaStart := rssiEnd;
        var antennaEnd := antennaStart + 1;
        var epc := Slice(data, epcStart, epcEnd);
        var rssi := Slice(data, rssiStart, rssiEnd);
        var antenna := Slice(data, antennaStart, antennaEnd);
        assert epcLength == DeclaredEpcLength(data, sof) && rssiStart == RssiStart(data, sof);
        assert epc == EpcField(data, sof) && rssi == RssiField(data, sof) && antenna == AntennaField(data, sof);
        var record := TagRecord(epc, HexToDbm(rssi), FromBytes(antenna));
        assert record == MakeRecord(epc, rssi, antenna);
        index := antennaEnd + TRAILER;
        assert index == ResumeAt(data, sof);
        ParseStep(parsed, data, sof);
        parsed := parsed + [record];
      } else {
        index := index + 1;
      }
    }
  }

  /** One turn of the loop at a marker keeps the loop's invariant. */
  lemma ParseStep(parsed: seq<TagRecord>, data: Bytes, i: nat)
    requires i < |data| && IsSofAt(data, i)
    ensures parsed + ScanFrom(data, i) == (parsed + [RecordAt(data, i)]) + ScanFrom(data, ResumeAt(data, i))
  {
    var rest := ScanFrom(data, ResumeAt(data, i));
    assert ScanFrom(data, i) == [RecordAt(data, i)] + rest;
    AppendAssoc(parsed, [RecordAt(data, i)], rest);
  }

  /** Every reported record has an EPC of at most 62 bytes, a 16-bit signed
      RSSI and a one-byte antenna number. */
  lemma {:induction false} RecordsBounded(data: Bytes, index: nat)
    ensures forall r :: r in ScanFrom(data, index) ==>
      |r.epc| <= 62 && -0x8000 <= r.rssi <= 0x7FFF && r.antenna <= 0xFF
    decreases |data| - index
  {
    if index < |data| {
      if IsSofAt(data, index) {
        RecordsBounded(data, ResumeAt(data, index));
      } else {
        RecordsBounded(data, index + 1);
      }
    }
  }

  /** The scan reports nothing exactly when no SOF marker starts at or after
      `index`; in particular every marker yields a record, complete or not. */
  lemma {:induction false} ScanEmptyIffNoSof(data: Bytes, index: nat)
    ensures ScanFrom(data, index) == [] <==> forall j :: index <= j < |data| ==> !IsSofAt(data, j)
    decreases |data| - index
  {
    if index < |data| && !IsSofAt(data, index) {
      ScanEmptyIffNoSof(data, index + 1);
      assert forall j :: index <= j < |data| ==> !IsSofAt(data, j) <==>
        index + 1 <= j < |data| ==> !IsSofAt(data, j);
    }
  }

  /** The first record reported from `index` is the one at the first SOF
      marker at or after `index`, and scanning then resumes after its trailer. */
  lemma {:induction false} ScanFindsFirstSof(data: Bytes, index: nat, j: nat)
    requires index <= j < |data| && IsSofAt(data, j)
    requires forall k :: index <= k < j ==> !IsSofAt(data, k)
    ensures ScanFrom(data, index) == [RecordAt(data, j)] + ScanFrom(data, ResumeAt(data, j))
    decreases j - index
  {
    if index < j {
      ScanFindsFirstSof(data, index + 1, j);
    }
  }

  /** Each record takes at least 13 bytes of buffer, SOF to trailer, except
      the last, which may be cut short. */
  lemma {:induction false} ScanCountBound(data: Bytes, index: nat)
    requires index <= |data|
    ensures |ScanFrom(data, index)| * 13 <= |data| - index + 12
    decreases |data| - index
  {
    if index < |data| {
      if IsSofAt(data, index) {
        var next := ResumeAt(data, index);
        if next <= |data| {
          ScanCountBound(data, next);
        } else {
          assert ScanFrom(data, next) == [];
        }
      } else {
        ScanCountBound(data, index + 1);
      }
    }
  }

  /** Scanning past a prefix at the same relative position gives the same records. */
  lemma {:induction false} ScanShift(p: Bytes, t: Bytes, k: nat)
    ensures ScanFrom(p + t, |p| + k) == ScanFrom(t, k)
    decreases |t| - k
  {
    if k >= |t| {
      assert ScanFrom(p + t, |p| + k) == [];
    } else if IsSofAt(t, k) {
      ScanShift(p, t, ResumeAt(t, k));
      ScanShiftAtSof(p, t, k);
    } else {
      ScanShift(p, t, k + 1);
      ScanShiftSkip(p, t, k);
    }
  }

  lemma ScanShiftAtSof(p: Bytes, t: Bytes, k: nat)
    requires k < |t| && IsSofAt(t, k)
    requires ScanFrom(p + t, |p| + ResumeAt(t, k)) == ScanFrom(t, ResumeAt(t, k))
    ensures ScanFrom(p + t, |p| + k) == ScanFrom(t, k)
  {
    var d := p + t;
    assert d[|p| + k] == t[k] && d[|p| + k + 1] == t[k + 1];
    RecordShift(p, t, k);
  }

  lemma ScanShiftSkip(p: Bytes, t: Bytes, k: nat)
    requires k < |t| && !IsSofAt(t, k)
    requires ScanFrom(p + t, |p| + k + 1) == ScanFrom(t, k + 1)
    ensures ScanFrom(p + t, |p| + k) == ScanFrom(t, k)
  {
    var d := p + t;
    assert d[|p| + k] == t[k];
    assert k + 1 < |t| ==> d[|p| + k + 1] == t[k + 1];
  }

  lemma RecordShift(p: Bytes, t: Bytes, k: nat)
    ensures RecordAt(p + t, |p| + k) == RecordAt(t, k)
    ensures ResumeAt(p + t, |p| + k) == |p| + ResumeAt(t, k)
  {
    var d, i := p + t, |p| + k;
    RssiStartShift(p, t, k);
    var r := RssiStart(t, k);
    SliceShift(p, t, EpcStart(k), r);
    assert EpcField(d, i) == EpcField(t, k);
    SliceShift(p, t, r, r + 2);
    assert RssiField(d, i) == RssiField(t, k);
    SliceShift(p, t, r + 2, r + 3);
    assert AntennaField(d, i) == AntennaField(t, k);
  }

  lemma RssiStartShift(p: Bytes, t: Bytes, k: nat)
    ensures RssiStart(p + t, |p| + k) == |p| + RssiStart(t, k)
  {
    var d, i := p + t, |p| + k;
    if k + PREAMBLE + 1 < |t| {
      assert d[i + PREAMBLE] == t[k + PREAMBLE];
    }
    assert DeclaredEpcLength(d, i) == DeclaredEpcLength(t, k);
  }

  /** Noise in which no SOF marker starts (not even one completed by the
      first byte of `t`) is skipped one byte at a time and produces nothing:
      the records of `noise + t` are those of `t`. */
  lemma NoiseIsSkipped(noise: Bytes, t: Bytes)
    requires forall k :: 0 <= k < |noise| ==> !IsSofAt(noise + t, k)
    ensures TagRecords(noise + t) == TagRecords(t)
  {
    SkipFrom(noise, t, 0);
    ScanShift(noise, t, 0);
  }

  lemma {:induction false} SkipFrom(noise: Bytes, t: Bytes, j: nat)
    requires j <= |noise|
    requires forall k :: 0 <= k < |noise| ==> !IsSofAt(noise + t, k)
    ensures ScanFrom(noise + t, j) == ScanFrom(noise + t, |noise|)
    decreases |noise| - j
  {
    if j < |noise| {
      SkipFrom(noise, t, j + 1);
    }
  }

  /** In particular, noise without any A5 byte is skipped. */
  lemma NoA5IsNoise(noise: Bytes, t: Bytes)
    requires forall k :: 0 <= k < |noise| ==> noise[k] != 0xA5
    ensures TagRecords(noise + t) == TagRecords(t)
  {
    forall k | 0 <= k < |noise|
      ensures !IsSofAt(noise + t, k)
    {
      assert (noise + t)[k] == noise[k];
    }
    NoiseIsSkipped(noise, t);
  }

  /** A well-formed tag report as the reader sends it in a burst: SOF, three
      header bytes (LEN and opcode), PC, the EPC the PC declares, RSSI,
      antenna, and three trailer bytes (CRC and EOF). */
  function TagReport(header: Bytes, pc: nat, epc: Bytes, rssi: int, antenna: byte, trailer: Bytes): (b: Bytes)
    requires |header| == 3 && |trailer| == 3
    requires pc <= 0xFFFF && |epc| == EpcLength(pc) && -0x8000 <= rssi <= 0x7FFF
    ensures |b| == 13 + |epc|
  {
    Frame.SOF + header + ToBytes2(pc).value + epc + DbmToHex(rssi).value + [antenna] + trailer
  }

  /** Decoding a report yields exactly the record that was put into it, and
      scanning goes on right after it. */
  lemma DecodeTagReport(header: Bytes, pc: nat, epc: Bytes, rssi: int, antenna: byte, trailer: Bytes, rest: Bytes)
    requires |header| == 3 && |trailer| == 3
    requires pc <= 0xFFFF && |epc| == EpcLength(pc) && -0x8000 <= rssi <= 0x7FFF
    ensures TagRecords(TagReport(header, pc, epc, rssi, antenna, trailer) + rest)
         == [TagRecord(epc, rssi, antenna)] + TagRecords(rest)
  {
    var report := TagReport(header, pc, epc, rssi, antenna, trailer);
    var data := report + rest;
    var n := |epc|;
    assert IsSofAt(data, 0);
    assert Slice(data, 5, 7) == ToBytes2(pc).value;
    DeclaredEpcLengthOfPc(data, 0);
    assert DeclaredEpcLength(data, 0) == n;
    assert Slice(data, 7, 7 + n) == epc;
    assert Slice(data, 7 + n, 9 + n) == DbmToHex(rssi).value;
    assert Slice(data, 9 + n, 10 + n) == [antenna];
    assert FromBytes([antenna]) == antenna by {
      assert [antenna][1..] == [];
    }
    assert RecordAt(data, 0) == TagRecord(epc, rssi, antenna);
    assert ResumeAt(data, 0) == |report|;
    ScanShift(report, rest, 0);
  }

  /** A burst holding one report, with PC = 08 00 (one EPC word):
      EPC 11 22, RSSI F8 30 (-20.00 dBm, reported as -200.0) on antenna 2. */
  lemma ExampleReport()
    ensures TagRecords([0xA5, 0x5A, 0x00, 0x13, 0x83, 0x08, 0x00, 0x11, 0x22, 0xF8, 0x30, 0x02, 0x00, 0x0D, 0x0A])
         == [TagRecord([0x11, 0x22], -2000, 2)]
  {
    ExampleFields();
    var report := TagReport([0x00, 0x13, 0x83], 0x0800, [0x11, 0x22], -2000, 0x02, [0x00, 0x0D, 0x0A]);
    assert report == Frame.SOF + [0x00, 0x13, 0x83] + [0x08, 0x00] + [0x11, 0x22] + [0xF8, 0x30] + [0x02] + [0x00, 0x0D, 0x0A];
    assert report == [0xA5, 0x5A, 0x00, 0x13, 0x83, 0x08, 0x00, 0x11, 0x22, 0xF8, 0x30, 0x02, 0x00, 0x0D, 0x0A];
    DecodeTagReport([0x00, 0x13, 0x83], 0x0800, [0x11, 0x22], -2000, 0x02, [0x00, 0x0D, 0x0A], []);
    assert report + [] == report;
    assert TagRecords([]) == [];
  }

  /** The encoded PC and RSSI of the example. */
  lemma ExampleFields()
    ensures EpcLength(0x0800) == 2
    ensures ToBytes2(0x0800) == Ok([0x08, 0x00])
    ensures DbmToHex(-2000) == Ok([0xF8, 0x30])
  {
    var pcBytes, rssiBytes: Bytes := [0x08, 0x00], [0xF8, 0x30];
    FromBytesTwo(pcBytes);
    ToBytes2OfFromBytes(pcBytes);
    FromBytesTwo(rssiBytes);
    DbmToHexOfHexToDbm(rssiBytes);
    assert HexToDbm(rssiBytes) == -2000;
  }
}
