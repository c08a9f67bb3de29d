/** Byte swapping: the in-place reversal of a buffer, and the mask-and-shift forms for integers. */
module Swab {

  // ---------- buffers

  function Reversed<T>(s: seq<T>): (r: seq<T>)
    ensures |r| == |s| && forall i :: 0 <= i < |s| ==> r[i] == s[|s| - 1 - i]
  {
    seq(|s|, i requires 0 <= i < |s| => s[|s| - 1 - i])
  }

  /** `swabbin` reverses the first `len` bytes and no others. */
  method SwabBin<T>(data: array<T>, len: nat)
    requires len <= data.Length && len < 0x1_0000_0000
    modifies data
    ensures data[..len] == Reversed(old(data[..len]))
    ensures data[len..] == old(data[len..])
  {
    var i := 0;
    while i < len / 2
      invariant i <= len / 2
      invariant forall k :: 0 <= k < i || len - i <= k < len ==> data[k] == old(data[len - 1 - k])
      invariant forall k :: i <= k < len - i ==> data[k] == old(data[k])
      invariant data[len..] == old(data[len..])
    {
      var tmp := data[i];
      data[i] := data[len - i - 1];
      data[len - i - 1] := tmp;
      i := i + 1;
    }
  }

  /** Swapping twice restores the buffer. */
  method SwabBinTwice<T>(data: array<T>, len: nat)
    requires len <= data.Length && len < 0x1_0000_0000
    modifies data
    ensures data[..] == old(data[..])
  {
    SwabBin(data, len);
    SwabBin(data, len);
    assert data[..] == data[..len] + data[len..];
    assert old(data[..]) == old(data[..len]) + old(data[len..]);
  }

  // ---------- integers

  function Swab16(x: bv16): bv16 {
    ((x & 0x00ff) << 8) | ((x & 0xff00) >> 8)
  }

  function Swab32(x: bv32): bv32 {
    ((x & 0x0000_00ff) << 24) | ((x & 0x0000_ff00) << 8) |
    ((x & 0x00ff_0000) >> 8) | ((x & 0xff00_0000) >> 24)
  }

  function Swab64(x: bv64): bv64 {
    ((x & 0x0000_0000_0000_00ff) << 56) | ((x & 0x0000_0000_0000_ff00) << 40) |
    ((x & 0x0000_0000_00ff_0000) << 24) | ((x & 0x0000_0000_ff00_0000) << 8) |
    ((x & 0x0000_00ff_0000_0000) >> 8) | ((x & 0x0000_ff00_0000_0000) >> 24) |
    ((x & 0x00ff_0000_0000_0000) >> 40) | ((x & 0xff00_0000_0000_0000) >> 56)
  }

  /** The bytes of an integer, least significant first, and the integer that they make up. */
  function Bytes16(x: bv16): (s: seq<bv16>) {
    [x & 0xff, x >> 8]
  }

  function From16(s: seq<bv16>): bv16
    requires |s| == 2
  {
    s[0] | (s[1] << 8)
  }

  function Bytes32(x: bv32): (s: seq<bv32>) {
    [x & 0xff, (x >> 8) & 0xff, (x >> 16) & 0xff, x >> 24]
  }

  function From32(s: seq<bv32>): bv32
    requires |s| == 4
  {
    s[0] | (s[1] << 8) | (s[2] << 16) | (s[3] << 24)
  }

  function Bytes64(x: bv64): (s: seq<bv64>) {
    [x & 0xff, (x >> 8) & 0xff, (x >> 16) & 0xff, (x >> 24) & 0xff,
     (x >> 32) & 0xff, (x >> 40) & 0xff, (x >> 48) & 0xff, x >> 56]
  }

  function From64(s: seq<bv64>): bv64
    requires |s| == 8
  {
    s[0] | (s[1] << 8) | (s[2] << 16) | (s[3] << 24) | (s[4] << 32) | (s[5] << 40) | (s[6] << 48) | (s[7] << 56)
  }

  lemma Bits64(x: bv64)
    ensures Swab64(x) & 0xff == x >> 56 && (Swab64(x) >> 8) & 0xff == (x >> 48) & 0xff
    ensures (Swab64(x) >> 16) & 0xff == (x >> 40) & 0xff && (Swab64(x) >> 24) & 0xff == (x >> 32) & 0xff
    ensures (Swab64(x) >> 32) & 0xff == (x >> 24) & 0xff && (Swab64(x) >> 40) & 0xff == (x >> 16) & 0xff
    ensures (Swab64(x) >> 48) & 0xff == (x >> 8) & 0xff && Swab64(x) >> 56 == x & 0xff
    ensures Swab64(Swab64(x)) == x
  {
  }

  /** Swapping an integer is reversing its bytes, as the loop does, and undoes itself. */
  lemma Swab16Reverses(x: bv16)
    ensures From16(Bytes16(x)) == x
    ensures Bytes16(Swab16(x)) == Reversed(Bytes16(x))
    ensures Swab16(Swab16(x)) == x
  {
  }

  lemma Swab32Reverses(x: bv32)
    ensures From32(Bytes32(x)) == x
    ensures Bytes32(Swab32(x)) == Reversed(Bytes32(x))
    ensures Swab32(Swab32(x)) == x
  {
  }

  lemma Reversed8<T>(a: T, b: T, c: T, d: T, e: T, f: T, g: T, h: T)
    ensures Reversed([a, b, c, d, e, f, g, h]) == [h, g, f, e, d, c, b, a]
  {
  }

  lemma Bytes64RoundTrip(x: bv64)
    ensures From64(Bytes64(x)) == x
  {
  }

  lemma Swab64Reverses(x: bv64)
    ensures Bytes64(Swab64(x)) == Reversed(Bytes64(x))
    ensures Swab64(Swab64(x)) == x
  {
    hide Swab64, Reversed;
    Bits64(x);
    Reversed8(x & 0xff, (x >> 8) & 0xff, (x >> 16) & 0xff, (x >> 24) & 0xff,
              (x >> 32) & 0xff, (x >> 40) & 0xff, (x >> 48) & 0xff, x >> 56);
  }
}
