/**
 Fixed-width unsigned integers stored as bytes.

 The capture reader uses `u32::from_ne_bytes` and `u16::from_ne_bytes`; this
 model fixes the host byte order to little-endian, so "native" decoding is
 `LittleEndian` below.
 */
module Bytes {

  type byte = b: int | 0 <= b < 256

  /** 256 raised to the power `n`: one more than the largest `n`-byte value. */
  function Pow256(n: nat): (p: nat)
    ensures p > 0
  {
    if n == 0 then 1 else 256 * Pow256(n - 1)
  }

  lemma Pow256Widths()
    ensures Pow256(2) == 0x1_0000
    ensures Pow256(4) == 0x1_0000_0000
  {
  }

  /** The value of `s` read least-significant byte first. */
  function LittleEndian(s: seq<byte>): (v: nat)
    ensures v < Pow256(|s|)
  {
    if |s| == 0 then 0 else s[0] + 256 * LittleEndian(s[1..])
  }

  /** The `n` low-order bytes of `v`, least-significant first. */
  function ToLittleEndian(v: nat, n: nat): (s: seq<byte>)
    ensures |s| == n
  {
    if n == 0 then [] else [v % 256] + ToLittleEndian(v / 256, n - 1)
  }

  /** Encoding a value that fits in `n` bytes and decoding it gives the value back. */
  lemma {:induction false} DecodeEncode(v: nat, n: nat)
    requires v < Pow256(n)
    ensures LittleEndian(ToLittleEndian(v, n)) == v
  {
    if n > 0 {
      DecodeEncode(v / 256, n - 1);
      var s := ToLittleEndian(v, n);
      assert s[1..] == ToLittleEndian(v / 256, n - 1);
    }
  }

  /** Decoding `s` and encoding the value at the same width gives `s` back. */
  lemma {:induction false} EncodeDecode(s: seq<byte>)
    ensures ToLittleEndian(LittleEndian(s), |s|) == s
  {
    if |s| > 0 {
      var v := LittleEndian(s);
      var rest := LittleEndian(s[1..]);
      assert v == s[0] + 256 * rest;
      assert v % 256 == s[0] && v / 256 == rest;
      EncodeDecode(s[1..]);
      assert ToLittleEndian(v, |s|) == [s[0]] + s[1..];
    }
  }

  /** The elements of `s` in the opposite order. */
  function Reverse<T>(s: seq<T>): (r: seq<T>)
    ensures |r| == |s|
    ensures forall i :: 0 <= i < |s| ==> r[i] == s[|s| - 1 - i]
  {
    if |s| == 0 then [] else Reverse(s[1..]) + [s[0]]
  }

  lemma ReverseReverse<T>(s: seq<T>)
    ensures Reverse(Reverse(s)) == s
  {
  }
}
