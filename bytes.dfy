/**
  Bytes of the introspection arena and the little-endian encoding of the
  fixed-width integers the arena stores (`uint32_t`, `size_t`).
 */
module Bytes {

  /** One byte of a `core::vector<char>` pool, read as unsigned. */
  type Byte = b: int | 0 <= b < 256

  /** 256 to the power `n`: the number of values `n` bytes can hold. */
  function Pow256(n: nat): (r: nat)
    ensures r >= 1
  {
    if n == 0 then 1 else 256 * Pow256(n - 1)
  }

  /** The bytes `std::vector::resize` appends: `n` zeros. */
  function Zeros(n: nat): (z: seq<Byte>)
    ensures |z| == n
    ensures forall i :: 0 <= i < n ==> z[i] == 0
  {
    seq(n, _ => 0)
  }

  /** The `width` least significant bytes of `v`, least significant first. */
  function EncodeLE(v: nat, width: nat): (r: seq<Byte>)
    ensures |r| == width
  {
    if width == 0 then [] else [v % 256] + EncodeLE(v / 256, width - 1)
  }

  /** The unsigned integer whose little-endian bytes are `b`. */
  function DecodeLE(b: seq<Byte>): (v: nat)
    ensures v < Pow256(|b|)
  {
    if b == [] then 0 else b[0] + 256 * DecodeLE(b[1..])
  }

  /** Reading back what was written gives the value, when it fits the width. */
  lemma {:induction false} DecodeEncode(v: nat, width: nat)
    requires v < Pow256(width)
    ensures DecodeLE(EncodeLE(v, width)) == v
  {
    if width > 0 {
      assert v / 256 < Pow256(width - 1);
      DecodeEncode(v / 256, width - 1);
      assert EncodeLE(v, width)[1..] == EncodeLE(v / 256, width - 1);
    }
  }

  /** Decoding from position `j` on: one byte, then the rest scaled by 256. */
  lemma DecodeStep(b: seq<Byte>, j: nat)
    requires j < |b|
    ensures DecodeLE(b[j..]) == b[j] + 256 * DecodeLE(b[j + 1..])
  {
    assert b[j..][1..] == b[j + 1..];
  }

  /** The `uint32_t` stored at `at`. */
  function ReadU32(s: seq<Byte>, at: nat): (v: nat)
    requires at + 4 <= |s|
    ensures v < 0x1_0000_0000
  {
    s[at] as int + 0x100 * s[at + 1] as int + 0x1_0000 * s[at + 2] as int + 0x100_0000 * s[at + 3] as int
  }

  /** The `uint64_t` (`size_t`) stored at `at`: two words, the low one first. */
  function ReadU64(s: seq<Byte>, at: nat): (v: nat)
    requires at + 8 <= |s|
    ensures v < 0x1_0000_0000_0000_0000
  {
    ReadU32(s, at) + 0x1_0000_0000 * ReadU32(s, at + 4)
  }

  lemma ReadU32IsDecode(s: seq<Byte>, at: nat)
    requires at + 4 <= |s|
    ensures ReadU32(s, at) == DecodeLE(s[at..at + 4])
  {
    var b := s[at..at + 4];
    assert b[1..][1..][1..][1..] == [];
    assert DecodeLE(b[1..][1..][1..]) == s[at + 3];
    assert DecodeLE(b[1..][1..]) == s[at + 2] as int + 0x100 * s[at + 3] as int;
    assert DecodeLE(b[1..]) == s[at + 1] as int + 0x100 * s[at + 2] as int + 0x1_0000 * s[at + 3] as int;
  }

  lemma ReadU64IsDecode(s: seq<Byte>, at: nat)
    requires at + 8 <= |s|
    ensures ReadU64(s, at) == DecodeLE(s[at..at + 8])
  {
    var b := s[at..at + 8];
    assert b[8..] == [];
    DecodeStep(b, 7);
    DecodeStep(b, 6);
    DecodeStep(b, 5);
    DecodeStep(b, 4);
    DecodeStep(b, 3);
    DecodeStep(b, 2);
    DecodeStep(b, 1);
    DecodeStep(b, 0);
    assert b[0..] == b;
  }

  /** A stored `uint32_t` reads back. */
  lemma ReadU32Encode(v: nat)
    requires v < 0x1_0000_0000
    ensures ReadU32(EncodeLE(v, 4), 0) == v
  {
    ReadU32IsDecode(EncodeLE(v, 4), 0);
    assert EncodeLE(v, 4)[0..4] == EncodeLE(v, 4);
    assert Pow256(4) == 0x1_0000_0000;
    DecodeEncode(v, 4);
  }

  /** A stored `uint64_t` reads back. */
  lemma ReadU64Encode(v: nat)
    requires v < 0x1_0000_0000_0000_0000
    ensures ReadU64(EncodeLE(v, 8), 0) == v
  {
    ReadU64IsDecode(EncodeLE(v, 8), 0);
    assert EncodeLE(v, 8)[0..8] == EncodeLE(v, 8);
    assert Pow256(8) == 0x1_0000_0000_0000_0000;
    DecodeEncode(v, 8);
  }

  /** A read inside `b` sees only `b`, whatever surrounds it. */
  lemma ReadU32Within(p: seq<Byte>, b: seq<Byte>, q: seq<Byte>, at: nat)
    requires at + 4 <= |b|
    ensures ReadU32(p + b + q, |p| + at) == ReadU32(b, at)
  {
  }

  lemma ReadU64Within(p: seq<Byte>, b: seq<Byte>, q: seq<Byte>, at: nat)
    requires at + 8 <= |b|
    ensures ReadU64(p + b + q, |p| + at) == ReadU64(b, at)
  {
    ReadU32Within(p, b, q, at);
    ReadU32Within(p, b, q, at + 4);
  }

  /** `s` with the bytes from `at` on replaced by `b`, as a `memcpy` into the pool does. */
  function Overwrite(s: seq<Byte>, at: nat, b: seq<Byte>): (r: seq<Byte>)
    requires at + |b| <= |s|
    ensures |r| == |s|
    ensures r[at..at + |b|] == b
    ensures forall i :: 0 <= i < |s| && !(at <= i < at + |b|) ==> r[i] == s[i]
  {
    s[..at] + b + s[at + |b|..]
  }
}
