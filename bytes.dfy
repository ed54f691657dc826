/** Bytes and bits as the converter handles them: the unsigned bytes of a Node
    Buffer, single monochrome pixels, the LSB-first packing of pixel bits into
    a byte, the big-endian 16-bit layout of Buffer.writeUInt16BE, and the
    'ascii' string encoding used when strings are appended to the output file. */
module Bytes {

  /** One unsigned byte of a Node Buffer. */
  type Byte = b: int | 0 <= b < 256

  /** One monochrome pixel: 0 (dark) or 1 (lit). */
  type Bit = b: int | 0 <= b <= 1

  function Min(a: int, b: int): int { if a <= b then a else b }

  function Pow2(n: nat): (p: nat)
    ensures p > 0
  {
    if n == 0 then 1 else 2 * Pow2(n - 1)
  }

  /** The number whose binary digits, least significant first, are `bits`. */
  function BitsToNat(bits: seq<Bit>): (v: nat)
    ensures v < Pow2(|bits|)
  {
    if bits == [] then 0 else bits[0] + 2 * BitsToNat(bits[1..])
  }

  /** Bit k (0 = least significant) of v, i.e. (v >> k) & 1. */
  function BitOf(v: nat, k: nat): (b: Bit)
  {
    if k == 0 then v % 2 else BitOf(v / 2, k - 1)
  }

  /** The n least significant bits of v, least significant first. */
  function NatToBits(v: nat, n: nat): (bits: seq<Bit>)
    ensures |bits| == n
    ensures forall k :: 0 <= k < n ==> bits[k] == BitOf(v, k)
  {
    if n == 0 then [] else [v % 2] + NatToBits(v / 2, n - 1)
  }

  /** Every bit of the shifted-in value is the bit shifted in at that place. */
  lemma AllBitsOfBitsToNat(bits: seq<Bit>)
    ensures forall k :: 0 <= k < |bits| ==> BitOf(BitsToNat(bits), k) == bits[k]
  {
    forall k | 0 <= k < |bits|
      ensures BitOf(BitsToNat(bits), k) == bits[k]
    {
      BitOfBitsToNat(bits, k);
    }
  }

  /** Reading bit k back out of a packed value gives the k-th packed bit. */
  lemma {:induction false} BitOfBitsToNat(bits: seq<Bit>, k: nat)
    requires k < |bits|
    ensures BitOf(BitsToNat(bits), k) == bits[k]
  {
    var v := BitsToNat(bits);
    assert v == bits[0] + 2 * BitsToNat(bits[1..]);
    if k > 0 {
      assert v / 2 == BitsToNat(bits[1..]);
      BitOfBitsToNat(bits[1..], k - 1);
    }
  }

  /** Packing the n low bits of a value below 2^n gives the value back. */
  lemma {:induction false} BitsToNatOfNatToBits(v: nat, n: nat)
    requires v < Pow2(n)
    ensures BitsToNat(NatToBits(v, n)) == v
  {
    if n > 0 {
      var bits := NatToBits(v, n);
      assert bits[1..] == NatToBits(v / 2, n - 1);
      BitsToNatOfNatToBits(v / 2, n - 1);
    }
  }

  /** Splitting a byte into its eight bits and packing them again gives the byte. */
  lemma ByteFromBits(v: Byte)
    ensures BitsToNat(NatToBits(v, 8)) == v
  {
    assert Pow2(8) == 256;
    BitsToNatOfNatToBits(v, 8);
  }

  /** Buffer.writeUInt16BE(v): the high byte first, then the low byte. */
  function WriteUInt16BE(v: nat): (r: seq<Byte>)
    requires v < 0x1_0000
    ensures |r| == 2 && 256 * (r[0] as int) + r[1] == v
  {
    [v / 256, v % 256]
  }

  /** Buffer.readUInt16BE(off): the big-endian value of bytes off and off + 1. */
  function ReadUInt16BE(bytes: seq<Byte>, off: nat): (v: nat)
    requires off + 2 <= |bytes|
    ensures v < 0x1_0000
  {
    256 * (bytes[off] as int) + bytes[off + 1]
  }

  /** Node's 'ascii' (latin1) encoding of a string: one byte per UTF-16 code
      unit, keeping its low eight bits. */
  function AsciiBytes(s: string): (r: seq<Byte>)
    ensures |r| == |s|
    ensures forall i :: 0 <= i < |s| && s[i] as int < 256 ==> r[i] == s[i] as int
  {
    seq(|s|, i requires 0 <= i < |s| => (s[i] as int) % 256)
  }

  /** The concatenation of a list of byte strings, in list order. */
  function Concat(parts: seq<seq<Byte>>): (r: seq<Byte>)
    ensures |r| == TotalLength(parts)
  {
    if parts == [] then [] else Concat(parts[..|parts| - 1]) + parts[|parts| - 1]
  }

  function TotalLength(parts: seq<seq<Byte>>): nat
  {
    if parts == [] then 0 else TotalLength(parts[..|parts| - 1]) + |parts[|parts| - 1]|
  }

  /** When every part has length n, the concatenation has |parts| * n bytes. */
  lemma {:induction false} TotalLengthUniform(parts: seq<seq<Byte>>, n: nat)
    requires forall p :: 0 <= p < |parts| ==> |parts[p]| == n
    ensures TotalLength(parts) == |parts| * n
  {
    if parts != [] {
      TotalLengthUniform(parts[..|parts| - 1], n);
    }
  }

  /** When every part has length n, part i is the slice from i * n to i * n + n
      of the concatenation: parts are laid out in list order, without gaps. */
  lemma {:induction false} ConcatSlice(parts: seq<seq<Byte>>, n: nat, i: nat)
    requires forall p :: 0 <= p < |parts| ==> |parts[p]| == n
    requires i < |parts|
    ensures i * n + n <= |Concat(parts)|
    ensures Concat(parts)[i * n .. i * n + n] == parts[i]
  {
    var last := |parts| - 1;
    var init := parts[..last];
    var c := Concat(init);
    assert Concat(parts) == c + parts[last];
    if i < last {
      ConcatSlice(init, n, i);
      assert (c + parts[last])[i * n .. i * n + n] == c[i * n .. i * n + n];
    } else {
      TotalLengthUniform(init, n);
      assert |c| == i * n;
      assert (c + parts[last])[|c| .. |c| + n] == parts[last];
    }
  }

  /** A byte string followed by the concatenation of uniform parts: part i
      sits right after the prefix and the i parts before it. */
  lemma PrefixConcatSlice(prefix: seq<Byte>, parts: seq<seq<Byte>>, n: nat, i: nat)
    requires forall p :: 0 <= p < |parts| ==> |parts[p]| == n
    requires i < |parts|
    ensures |prefix| + i * n + n <= |prefix + Concat(parts)|
    ensures (prefix + Concat(parts))[|prefix| + i * n .. |prefix| + i * n + n] == parts[i]
  {
    ConcatSlice(parts, n, i);
    var c := Concat(parts);
    assert (prefix + c)[|prefix| + i * n .. |prefix| + i * n + n] == c[i * n .. i * n + n];
  }

  /** Concatenating one more part appends it. */
  lemma ConcatStep(parts: seq<seq<Byte>>, i: nat)
    requires i < |parts|
    ensures Concat(parts[..i + 1]) == Concat(parts[..i]) + parts[i]
  {
    assert parts[..i + 1][..i] == parts[..i];
  }
}
