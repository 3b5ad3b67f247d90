/** Bytes and their big-endian bit strings: the common ground of base16 and base32. */
module Bits {

  /** An octet, as Python's `bytes` holds it. */
  newtype byte = b: int | 0 <= b < 256

  function Pow2(n: nat): (p: nat)
    ensures p >= 1
  {
    if n == 0 then 1 else 2 * Pow2(n - 1)
  }

  function Bit(b: bool): nat
  {
    if b then 1 else 0
  }

  /** The `w` low-order bits of `x`, most significant first. */
  function NatBits(x: nat, w: nat): (bits: seq<bool>)
    ensures |bits| == w
  {
    if w == 0 then [] else NatBits(x / 2, w - 1) + [x % 2 == 1]
  }

  /** The number a big-endian bit string denotes. */
  function BitsNat(bits: seq<bool>): (x: nat)
    ensures x < Pow2(|bits|)
  {
    if bits == [] then 0 else 2 * BitsNat(bits[..|bits| - 1]) + Bit(bits[|bits| - 1])
  }

  lemma {:induction false} BitsNatOfNatBits(x: nat, w: nat)
    requires x < Pow2(w)
    ensures BitsNat(NatBits(x, w)) == x
  {
    if w > 0 {
      var bits := NatBits(x, w);
      assert bits[..w - 1] == NatBits(x / 2, w - 1);
      BitsNatOfNatBits(x / 2, w - 1);
    }
  }

  lemma {:induction false} NatBitsOfBitsNat(bits: seq<bool>)
    ensures NatBits(BitsNat(bits), |bits|) == bits
  {
    if bits != [] {
      var n := |bits|;
      var x := BitsNat(bits);
      assert x / 2 == BitsNat(bits[..n - 1]);
      NatBitsOfBitsNat(bits[..n - 1]);
      assert bits == bits[..n - 1] + [bits[n - 1]];
    }
  }

  lemma Pow2Widths()
    ensures Pow2(5) == 32 && Pow2(8) == 256
  {
  }

  /** The bit string of a byte sequence: eight bits per byte, first byte first. */
  function BytesBits(data: seq<byte>): (bits: seq<bool>)
    ensures |bits| == 8 * |data|
  {
    if data == [] then [] else NatBits(data[0] as nat, 8) + BytesBits(data[1..])
  }

  /** The bytes that a bit string of whole octets spells. */
  function BitsBytes(bits: seq<bool>): (data: seq<byte>)
    requires |bits| % 8 == 0
    ensures |data| == |bits| / 8
  {
    if bits == [] then []
    else
      Pow2Widths();
      [BitsNat(bits[..8]) as byte] + BitsBytes(bits[8..])
  }

  lemma {:induction false} BitsBytesOfBytesBits(data: seq<byte>)
    ensures BitsBytes(BytesBits(data)) == data
  {
    if data != [] {
      var bits := BytesBits(data);
      assert bits[..8] == NatBits(data[0] as nat, 8);
      assert bits[8..] == BytesBits(data[1..]);
      Pow2Widths();
      BitsNatOfNatBits(data[0] as nat, 8);
      BitsBytesOfBytesBits(data[1..]);
    }
  }

  /** `n` zero bits. */
  function Zeros(n: nat): (bits: seq<bool>)
    ensures |bits| == n && forall i :: 0 <= i < n ==> !bits[i]
  {
    if n == 0 then [] else Zeros(n - 1) + [false]
  }
}
