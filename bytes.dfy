/**
  Byte sequences and the little-endian digit codec.

  Every multi-byte field of the wire format is an unsigned integer stored as
  its base-256 digits, least significant first. `ToLE` and `FromLE` are that
  codec and are inverse to each other in both directions.
 */
module Bytes {

  /** One octet (the source's `uint8`). */
  type u8 = x: int | 0 <= x < 256

  /** The source's `uint32`. */
  type u32 = x: int | 0 <= x < 0x1_0000_0000

  /** `std::numeric_limits<uint32>::max()`. */
  const U32Max: int := 0xFFFF_FFFF

  /** The modulus of a `static_cast<uint32>` truncation. */
  const U32Modulus: nat := 0x1_0000_0000

  /** 256 to the power n: the number of values an n-byte field holds. */
  function Pow256(n: nat): (r: nat)
    ensures r > 0
  {
    if n == 0 then 1 else 256 * Pow256(n - 1)
  }

  /** The widths the source's integer and floating-point types have. */
  lemma Pow256Widths()
    ensures Pow256(1) == 0x100
    ensures Pow256(2) == 0x1_0000
    ensures Pow256(4) == 0x1_0000_0000
    ensures Pow256(8) == 0x1_0000_0000_0000_0000
  {
  }

  /** The n low base-256 digits of v, least significant first. */
  function ToLE(v: nat, n: nat): (r: seq<u8>)
    ensures |r| == n
  {
    if n == 0 then [] else [v % 256] + ToLE(v / 256, n - 1)
  }

  /** The unsigned integer whose little-endian digits are bs. */
  function FromLE(bs: seq<u8>): (r: nat)
    ensures r < Pow256(|bs|)
  {
    if bs == [] then 0 else bs[0] + 256 * FromLE(bs[1..])
  }

  /** Decoding the n-byte encoding of a value that fits in n bytes gives it back. */
  lemma {:induction false} FromToLE(v: nat, n: nat)
    requires v < Pow256(n)
    ensures FromLE(ToLE(v, n)) == v
  {
    if n > 0 {
      FromToLE(v / 256, n - 1);
      assert ToLE(v, n)[1..] == ToLE(v / 256, n - 1);
    }
  }

  /** Encoding the value of a byte sequence at its own width gives the sequence back. */
  lemma {:induction false} ToFromLE(bs: seq<u8>)
    ensures ToLE(FromLE(bs), |bs|) == bs
  {
    if bs != [] {
      ToFromLE(bs[1..]);
      var v := FromLE(bs);
      assert v % 256 == bs[0] && v / 256 == FromLE(bs[1..]);
    }
  }

  /** Two byte sequences of one width are equal exactly when their values are. */
  lemma FromLEInjective(a: seq<u8>, b: seq<u8>)
    requires |a| == |b| && FromLE(a) == FromLE(b)
    ensures a == b
  {
    ToFromLE(a);
    ToFromLE(b);
  }

  /** The sequence read back to front. */
  function Reverse<T>(s: seq<T>): (r: seq<T>)
    ensures |r| == |s|
    ensures forall i :: 0 <= i < |s| ==> r[i] == s[|s| - 1 - i]
  {
    if s == [] then [] else Reverse(s[1..]) + [s[0]]
  }

  /** Reversing twice restores the sequence. */
  lemma ReverseReverse<T>(s: seq<T>)
    ensures Reverse(Reverse(s)) == s
  {
    assert forall i :: 0 <= i < |s| ==> Reverse(Reverse(s))[i] == s[i];
  }

  /** Appending is associative; stated once so that callers need not re-derive it element-wise. */
  lemma AppendAssoc<T>(a: seq<T>, b: seq<T>, c: seq<T>)
    ensures (a + b) + c == a + (b + c)
  {
  }

  /** n zero bytes (the padding and blank placeholders the builder writes). */
  function Zeros(n: nat): (r: seq<u8>)
    ensures |r| == n
    ensures forall i :: 0 <= i < n ==> r[i] == 0
  {
    if n == 0 then [] else Zeros(n - 1) + [0]
  }

  /**
    s with the bytes at at..at+|data|-1 overwritten by data: what a `memcpy`
    into already-written storage does. Nothing else changes.
   */
  function Patch(s: seq<u8>, at: nat, data: seq<u8>): (r: seq<u8>)
    requires at + |data| <= |s|
    ensures |r| == |s|
    ensures r[at..at + |data|] == data
    ensures forall i :: 0 <= i < |s| && !(at <= i < at + |data|) ==> r[i] == s[i]
  {
    s[..at] + data + s[at + |data|..]
  }

  /** A slice of bytes found at position at is found at position at + lo. */
  lemma SliceInside(s: seq<u8>, at: nat, whole: seq<u8>, lo: nat, hi: nat)
    requires at + |whole| <= |s| && s[at..at + |whole|] == whole
    requires lo <= hi <= |whole|
    ensures s[at + lo..at + hi] == whole[lo..hi]
  {
    forall k | 0 <= k < hi - lo
      ensures s[at + lo..at + hi][k] == whole[lo..hi][k]
    {
      assert whole[lo + k] == s[at..at + |whole|][lo + k];
    }
  }

  /** A patch leaves every slice that lies wholly before or wholly after it as it was. */
  lemma PatchOutside(s: seq<u8>, at: nat, data: seq<u8>, lo: nat, hi: nat)
    requires at + |data| <= |s| && lo <= hi <= |s|
    requires hi <= at || at + |data| <= lo
    ensures Patch(s, at, data)[lo..hi] == s[lo..hi]
  {
  }
}
