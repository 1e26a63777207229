/** Python's `bytes` as the driver uses them: octets, clamped slices and big-endian integers. */
module Bytes {
  import opened Outcome

  /** One element of a Python `bytes` object. */
  type byte = x: int | 0 <= x < 256

  type Bytes = seq<byte>

  function Min(a: int, b: int): int {
    if a <= b then a else b
  }

  /** Python's `s[i:j]` for non-negative bounds: both ends are clamped to the
      length, and a slice whose start is not before its end, or at or past
      the end of `s`, is empty. */
  function Slice(s: Bytes, i: nat, j: nat): (r: Bytes)
    ensures |r| == if i < j && i < |s| then Min(j, |s|) - i else 0
    ensures forall k :: 0 <= k < |r| ==> r[k] == s[i + k]
  {
    if i < j && i < |s| then s[i..Min(j, |s|)] else []
  }

  /** Slicing past a prefix is slicing the rest. */
  lemma SliceShift(p: Bytes, t: Bytes, i: nat, j: nat)
    ensures Slice(p + t, |p| + i, |p| + j) == Slice(t, i, j)
  {
    if i < j && i < |t| {
      assert (p + t)[|p| + i..Min(|p| + j, |p + t|)] == t[i..Min(j, |t|)];
    }
  }

  function Pow256(n: nat): (r: nat)
    ensures r > 0
  {
    if n == 0 then 1 else 256 * Pow256(n - 1)
  }

  /** Concatenation regroups freely. */
  lemma AppendAssoc<T>(x: seq<T>, y: seq<T>, z: seq<T>)
    ensures (x + y) + z == x + (y + z)
  {
  }

  /** `int.from_bytes(b, byteorder='big')`: unsigned, most significant byte
      first; the empty sequence decodes to 0. */
  function FromBytes(b: Bytes): (r: nat)
    ensures r < Pow256(|b|)
  {
    if b == [] then 0 else FromBytes(b[..|b| - 1]) * 256 + b[|b| - 1]
  }

  /** The first byte weighs 256 to the power of the number of bytes after it. */
  lemma {:induction false} FromBytesLeading(b: Bytes)
    requires |b| > 0
    ensures FromBytes(b) == b[0] * Pow256(|b| - 1) + FromBytes(b[1..])
  {
    if |b| > 1 {
      var init, tail := b[..|b| - 1], b[1..];
      FromBytesLeading(init);
      assert init[0] == b[0] && init[1..] == tail[..|tail| - 1] && tail[|tail| - 1] == b[|b| - 1];
      var w, mid, last := Pow256(|b| - 2), FromBytes(init[1..]), b[|b| - 1];
      assert FromBytes(init) == b[0] * w + mid;
      assert FromBytes(tail) == mid * 256 + last;
      assert Pow256(|b| - 1) == 256 * w;
      Regroup(b[0], w, mid, last);
    } else {
      assert b[..0] == [] && b[1..] == [];
    }
  }

  lemma Regroup(x: int, w: int, y: int, z: int)
    ensures (x * w + y) * 256 + z == x * (256 * w) + (y * 256 + z)
  {
  }

  /** The leading byte of a two-byte big-endian number is its high half. */
  lemma FromBytesTwo(b: Bytes)
    requires |b| == 2
    ensures FromBytes(b) == b[0] as int * 256 + b[1]
  {
    assert b[..1][..0] == [];
  }

  /** `v.to_bytes(2, byteorder='big')`: unsigned, raising OverflowError for a
      value outside [0, 0xFFFF]. */
  function ToBytes2(v: int): (r: Result<Bytes>)
    ensures r.Ok? <==> 0 <= v <= 0xFFFF
    ensures r.Ok? ==> |r.value| == 2 && FromBytes(r.value) == v
  {
    if 0 <= v <= 0xFFFF then
      var b := [v / 256, v % 256];
      FromBytesTwo(b);
      Ok(b)
    else Err(Overflow)
  }

  /** Every two-byte sequence is the encoding of the number it decodes to. */
  lemma ToBytes2OfFromBytes(b: Bytes)
    requires |b| == 2
    ensures ToBytes2(FromBytes(b)) == Ok(b)
  {
    FromBytesTwo(b);
    var v := FromBytes(b);
    assert v / 256 == b[0] && v % 256 == b[1];
    assert [v / 256, v % 256] == b;
  }
}
