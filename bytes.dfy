/** Bytes and little-endian 32-bit integers, as an ArrayBuffer is read and
    written through a DataView (with littleEndian = true) and a Uint8Array. */
module Bytes {

  /** One octet of an ArrayBuffer. */
  newtype byte = x: int | 0 <= x < 0x100

  const TwoTo32: int := 0x1_0000_0000
  const MaxInt32: int := 0x7FFF_FFFF
  const MinInt32: int := -0x8000_0000

  predicate InInt32(v: int) {
    MinInt32 <= v <= MaxInt32
  }

  /** The ECMAScript ToInt32 conversion that DataView.setInt32 applies to its
      value: the unique int32 congruent to v modulo 2^32. */
  function WrapInt32(v: int): (r: int)
    ensures InInt32(r)
    ensures (v - r) % TwoTo32 == 0
    ensures InInt32(v) ==> r == v
  {
    var u := v % TwoTo32;
    if u <= MaxInt32 then u else u - TwoTo32
  }

  /** The four bytes DataView.setInt32(offset, v, true) stores, least
      significant first, two's complement. */
  function EncodeInt32(v: int): (r: seq<byte>)
    ensures |r| == 4
  {
    var u := v % TwoTo32;
    [(u % 0x100) as byte,
     (u / 0x100 % 0x100) as byte,
     (u / 0x1_0000 % 0x100) as byte,
     (u / 0x100_0000) as byte]
  }

  /** The value DataView.getInt32(offset, true) reads from four bytes. */
  function DecodeInt32(s: seq<byte>): (r: int)
    requires |s| == 4
    ensures InInt32(r)
  {
    var u := s[0] as int + 0x100 * (s[1] as int) + 0x1_0000 * (s[2] as int) + 0x100_0000 * (s[3] as int);
    if u <= MaxInt32 then u else u - TwoTo32
  }

  /** The int32 stored at `offset` of a buffer. */
  function Int32At(s: seq<byte>, offset: nat): (r: int)
    requires offset + 4 <= |s|
    ensures InInt32(r)
  {
    DecodeInt32(s[offset..offset + 4])
  }

  /** Reading back a written int32 gives the written value after ToInt32. */
  lemma DecodeEncode(v: int)
    ensures DecodeInt32(EncodeInt32(v)) == WrapInt32(v)
  {
    var u := v % TwoTo32;
    var e := EncodeInt32(v);
    assert u == u % 0x100 + 0x100 * (u / 0x100);
    assert u / 0x100 == u / 0x100 % 0x100 + 0x100 * (u / 0x1_0000);
    assert u / 0x1_0000 == u / 0x1_0000 % 0x100 + 0x100 * (u / 0x100_0000);
    assert e[0] as int + 0x100 * (e[1] as int) + 0x1_0000 * (e[2] as int) + 0x100_0000 * (e[3] as int) == u;
  }

  /** Every int32 survives a write and a read unchanged. */
  lemma DecodeEncodeInt32(v: int)
    requires InInt32(v)
    ensures DecodeInt32(EncodeInt32(v)) == v
  {
    DecodeEncode(v);
  }

  /** Splitting off the low byte of lo + 256 * hi. */
  lemma LowByte(lo: int, hi: int)
    requires 0 <= lo < 0x100
    ensures (lo + 0x100 * hi) % 0x100 == lo && (lo + 0x100 * hi) / 0x100 == hi
  {
  }

  /** Four bytes read as an int32 and written back are the same four bytes. */
  lemma EncodeDecode(s: seq<byte>)
    requires |s| == 4
    ensures EncodeInt32(DecodeInt32(s)) == s
  {
    var b0, b1, b2, b3 := s[0] as int, s[1] as int, s[2] as int, s[3] as int;
    var u := b0 + 0x100 * (b1 + 0x100 * (b2 + 0x100 * b3));
    assert DecodeInt32(s) % TwoTo32 == u;
    LowByte(b0, b1 + 0x100 * (b2 + 0x100 * b3));
    LowByte(b1, b2 + 0x100 * b3);
    LowByte(b2, b3);
    assert u / 0x1_0000 == (u / 0x100) / 0x100;
    assert u / 0x100_0000 == (u / 0x1_0000) / 0x100;
  }

  /** `s` with `part` written over it from `offset` on. */
  function Overwrite(s: seq<byte>, offset: nat, part: seq<byte>): (r: seq<byte>)
    requires offset + |part| <= |s|
    ensures |r| == |s|
    ensures forall i :: 0 <= i < |s| ==> r[i] == if offset <= i < offset + |part| then part[i - offset] else s[i]
  {
    s[..offset] + part + s[offset + |part|..]
  }

  /** DataView.setInt32(offset, v, true): overwrites the four bytes at
      `offset` with v, leaving every other byte as it was. */
  method SetInt32(a: array<byte>, offset: nat, v: int)
    requires offset + 4 <= a.Length
    modifies a
    ensures a[..] == Overwrite(old(a[..]), offset, EncodeInt32(v))
  {
    var e := EncodeInt32(v);
    a[offset] := e[0];
    a[offset + 1] := e[1];
    a[offset + 2] := e[2];
    a[offset + 3] := e[3];
  }

  /** Uint8Array.prototype.set(src, offset): copies src into the array from
      `offset` on, leaving every other byte as it was. */
  method SetBytes(a: array<byte>, src: seq<byte>, offset: nat)
    requires offset + |src| <= a.Length
    modifies a
    ensures a[..] == Overwrite(old(a[..]), offset, src)
  {
    for k := 0 to |src|
      invariant forall j :: 0 <= j < k ==> a[offset + j] == src[j]
      invariant forall i :: 0 <= i < a.Length && !(offset <= i < offset + k) ==> a[i] == old(a[i])
    {
      a[offset + k] := src[k];
    }
  }
}
