/**
  Endianness conversion, alignment arithmetic and the assertion outcomes
  shared by the builder and the accessors.

  The host's byte order is a parameter rather than a compile-time switch, and
  the byte-swap intrinsics are byte reversal on the little-endian digits.
  Every assertion of the library becomes an explicit `Failure` value; the
  constructors are named after the assertion they stand for.
 */
module Common {
  import opened Bytes

  /** The byte order the host keeps integers in, in memory. */
  datatype HostOrder = LittleEndianHost | BigEndianHost

  /** One constructor per assertion site of the library. */
  datatype Failure =
    | NullBufferStart          // view over a null buffer
    | InvalidMagicNumber       // header magic is not the format constant
    | TotalSizeTooSmall        // header total_size below the header's own size
    | AccessOutOfBounds        // byte range beyond the object's total_size
    | UnalignedFieldAccess     // typed read at a misaligned address
    | NullStringData           // string view over a null pointer
    | NullArrayData            // array view over a null pointer
    | ArrayIndexOutOfBounds    // element index not below the element count
    | UnalignedElementAccess   // array element at a misaligned address
    | NullObjectBase           // offset-table lookup with a null object base
    | NonPositiveTableOffset   // offset table claimed to start at offset 0
    | EntryIndexOutOfBounds    // entry index not below the declared entry count
    | UnalignedOffsetTable     // offset table at a misaligned address
    | EntryBeyondTable         // entry byte offset beyond the table's byte length
    | TotalSizeExceedsUint32   // object longer than a 32-bit total_size can say
    | EntryOutOfCurrentBounds  // patched entry not wholly inside the written bytes
    | UnalignedEntry           // patched entry at a misaligned offset

  /** A value, or the assertion that stopped the operation. */
  datatype Result<T> = Ok(value: T) | Fail(failure: Failure)

  /** The outcome of an operation that returns nothing. */
  datatype Status = Done | Failed(failure: Failure)

  // --- Byte swapping and host byte order ---

  /** `swap_bytes` for 16-, 32- and 64-bit values: the byte order reversed. */
  function SwapBytes(v: nat, n: nat): (r: nat)
    requires n == 2 || n == 4 || n == 8
    requires v < Pow256(n)
    ensures r < Pow256(n)
    ensures ToLE(r, n) == Reverse(ToLE(v, n))
  {
    ToFromLE(Reverse(ToLE(v, n)));
    FromLE(Reverse(ToLE(v, n)))
  }

  /** Swapping twice gives the value back. */
  lemma SwapBytesInvolutive(v: nat, n: nat)
    requires n == 2 || n == 4 || n == 8
    requires v < Pow256(n)
    ensures SwapBytes(SwapBytes(v, n), n) == v
  {
    var w := SwapBytes(v, n);
    ReverseReverse(ToLE(v, n));
    assert ToLE(SwapBytes(w, n), n) == ToLE(v, n);
    FromToLE(SwapBytes(w, n), n);
    FromToLE(v, n);
  }

  /** An independent statement of the 16-bit swap: the two bytes exchange places. */
  lemma SwapBytes16(v: nat)
    requires v < 0x1_0000
    ensures SwapBytes(v, 2) == (v % 256) * 256 + v / 256
  {
    var r := SwapBytes(v, 2);
    assert ToLE(v, 2) == [v % 256, v / 256 % 256];
    assert ToLE(r, 2) == [v / 256 % 256, v % 256];
    FromToLE(r, 2);
    assert FromLE(ToLE(r, 2)) == v / 256 % 256 + 256 * (v % 256);
  }

  /** The bytes a host keeps in memory for an n-byte unsigned value v. */
  function HostImage(host: HostOrder, v: nat, n: nat): (r: seq<u8>)
    ensures |r| == n
  {
    if host == LittleEndianHost then ToLE(v, n) else Reverse(ToLE(v, n))
  }

  /** The unsigned value a host reads from the bytes bs in memory. */
  function HostLoad(host: HostOrder, bs: seq<u8>): (r: nat)
    ensures r < Pow256(|bs|)
  {
    if host == LittleEndianHost then FromLE(bs) else FromLE(Reverse(bs))
  }

  /** Storing a value in memory and loading it back gives the value, on either host. */
  lemma HostLoadImage(host: HostOrder, v: nat, n: nat)
    requires v < Pow256(n)
    ensures HostLoad(host, HostImage(host, v, n)) == v
  {
    FromToLE(v, n);
    ReverseReverse(ToLE(v, n));
  }

  /**
    `to_little_endian` of an n-byte value: unchanged on a little-endian host;
    on a big-endian host byte-swapped when n is 2, 4 or 8 and unchanged
    otherwise (there is no branch for any other size).
   */
  function ToLittleEndian(host: HostOrder, v: nat, n: nat): (r: nat)
    requires v < Pow256(n)
    ensures r < Pow256(n)
  {
    if host == BigEndianHost && (n == 2 || n == 4 || n == 8) then SwapBytes(v, n) else v
  }

  /** `from_little_endian`: the same operation as `to_little_endian`. */
  function FromLittleEndian(host: HostOrder, v: nat, n: nat): (r: nat)
    requires v < Pow256(n)
    ensures r < Pow256(n)
  {
    ToLittleEndian(host, v, n)
  }

  /** On a little-endian host the conversion never changes a value. */
  lemma LittleEndianHostIdentity(v: nat, n: nat)
    requires v < Pow256(n)
    ensures ToLittleEndian(LittleEndianHost, v, n) == v
    ensures FromLittleEndian(LittleEndianHost, v, n) == v
  {
  }

  /** One-byte values are never changed, on either host. */
  lemma SingleByteUnchanged(host: HostOrder, v: nat)
    requires v < 256
    ensures ToLittleEndian(host, v, 1) == v
    ensures FromLittleEndian(host, v, 1) == v
  {
  }

  /** On a big-endian host 2-, 4- and 8-byte values are byte-swapped. */
  lemma BigEndianHostSwaps(v: nat, n: nat)
    requires n == 2 || n == 4 || n == 8
    requires v < Pow256(n)
    ensures ToLittleEndian(BigEndianHost, v, n) == SwapBytes(v, n)
  {
  }

  /** Converting to little-endian and back is the identity, on either host. */
  lemma EndianRoundTrip(host: HostOrder, v: nat, n: nat)
    requires v < Pow256(n)
    ensures FromLittleEndian(host, ToLittleEndian(host, v, n), n) == v
  {
    if host == BigEndianHost && (n == 2 || n == 4 || n == 8) {
      SwapBytesInvolutive(v, n);
    }
  }

  /**
    What the library stores is host-independent: the memory image of
    `to_little_endian(v)` is the little-endian encoding of v, for every size
    the conversion handles (1, 2, 4 and 8).
   */
  lemma StoredIsLittleEndian(host: HostOrder, v: nat, n: nat)
    requires n == 1 || n == 2 || n == 4 || n == 8
    requires v < Pow256(n)
    ensures HostImage(host, ToLittleEndian(host, v, n), n) == ToLE(v, n)
  {
    if host == BigEndianHost {
      if n == 1 {
        assert Reverse(ToLE(v, 1)) == ToLE(v, 1);
      } else {
        ReverseReverse(ToLE(v, n));
      }
    }
  }

  /**
    What the library reads is host-independent: `from_little_endian` of the
    value a host loads from bs is the little-endian value of bs.
   */
  lemma LoadedIsLittleEndian(host: HostOrder, bs: seq<u8>)
    requires |bs| == 1 || |bs| == 2 || |bs| == 4 || |bs| == 8
    ensures FromLittleEndian(host, HostLoad(host, bs), |bs|) == FromLE(bs)
  {
    var n := |bs|;
    if host == BigEndianHost {
      var w := FromLE(Reverse(bs));
      if n == 1 {
        assert Reverse(bs) == bs;
      } else {
        ToFromLE(Reverse(bs));
        ReverseReverse(bs);
        assert ToLE(SwapBytes(w, n), n) == bs;
        FromToLE(SwapBytes(w, n), n);
      }
    }
  }

  // --- Alignment ---

  /** `size_t` arithmetic is modulo 2^64. */
  const WordModulus: nat := 0x1_0000_0000_0000_0000

  /** 2 to the power k. */
  function Pow2(k: nat): (r: nat)
    ensures r > 0
  {
    if k == 0 then 1 else 2 * Pow2(k - 1)
  }

  ghost predicate IsPowerOfTwo(a: nat) {
    exists k: nat :: Pow2(k) == a
  }

  /** Bitwise `&` on naturals, bit by bit from the least significant. */
  function BitAnd(x: nat, y: nat): (r: nat)
    ensures r <= x && r <= y
  {
    if x == 0 || y == 0 then 0
    else 2 * BitAnd(x / 2, y / 2) + (if x % 2 == 1 && y % 2 == 1 then 1 else 0)
  }

  /** Bitwise `~` on a 64-bit `size_t`. */
  function BitNot(x: nat): (r: nat)
    requires x < WordModulus
    ensures r < WordModulus && x + r == WordModulus - 1
  {
    WordModulus - 1 - x
  }

  /** `align_up`: `(offset + alignment - 1) & ~(alignment - 1)` on 64-bit `size_t`. */
  function AlignUp(offset: nat, alignment: nat): (r: nat)
    requires offset < WordModulus && alignment < WordModulus
    ensures r < WordModulus
  {
    BitAnd((offset + alignment - 1) % WordModulus, BitNot((alignment - 1) % WordModulus))
  }

  /** `is_aligned`: whether an address is a multiple of the alignment. */
  predicate IsAligned(address: nat, alignment: nat)
    requires alignment > 0
  {
    address % alignment == 0
  }

  /** Division by a positive divisor determines quotient and remainder uniquely. */
  lemma DivModUnique(x: int, d: int, q: int, m: int)
    requires d > 0 && 0 <= m < d && x == d * q + m
    ensures x / d == q && x % d == m
  {
    var q', m' := x / d, x % d;
    assert d * (q - q') == m' - m;
    if q - q' >= 1 {
      MulAtLeast(d, q - q');
    }
    if q' - q >= 1 {
      MulAtLeast(d, q' - q);
    }
  }

  lemma MulAtLeast(d: int, t: int)
    requires d > 0 && t >= 1
    ensures d * t >= d
  {
  }

  /** Remainder by 2P splits into the low bit and the remainder of x/2 by P. */
  lemma ModDoubled(x: nat, p: nat)
    requires p > 0
    ensures x % (2 * p) == x % 2 + 2 * ((x / 2) % p)
  {
    var h, b := x / 2, x % 2;
    var q, s := h / p, h % p;
    assert x == (2 * p) * q + (2 * s + b);
    DivModUnique(x, 2 * p, q, 2 * s + b);
  }

  /** x & (2^n - 1) keeps every bit of x below 2^n. */
  lemma {:induction false} BitAndAllOnes(x: nat, n: nat)
    requires x < Pow2(n)
    ensures BitAnd(x, Pow2(n) - 1) == x
  {
    if x != 0 {
      assert n > 0;
      BitAndAllOnes(x / 2, n - 1);
      assert (Pow2(n) - 1) / 2 == Pow2(n - 1) - 1;
    }
  }

  /** x with its k low bits cleared, one bit at a time. */
  function ClearLow(x: nat, k: nat): nat {
    if k == 0 then x else 2 * ClearLow(x / 2, k - 1)
  }

  /** Clearing k low bits is rounding down to a multiple of 2^k. */
  lemma {:induction false} ClearLowIsRoundDown(x: nat, k: nat)
    ensures ClearLow(x, k) == x - x % Pow2(k)
  {
    if k > 0 {
      ClearLowIsRoundDown(x / 2, k - 1);
      ModDoubled(x, Pow2(k - 1));
    }
  }

  /** x & (2^n - 2^k) clears the k low bits of x. */
  lemma {:induction false} BitAndClearsLow(x: nat, n: nat, k: nat)
    requires Pow2(k) <= Pow2(n) && x < Pow2(n)
    ensures BitAnd(x, Pow2(n) - Pow2(k)) == ClearLow(x, k)
  {
    if k == 0 {
      BitAndAllOnes(x, n);
    } else if x == 0 {
      assert ClearLow(0, k) == 2 * ClearLow(0, k - 1);
      ClearLowIsRoundDown(0, k);
    } else if Pow2(n) == Pow2(k) {
      DivModUnique(x, Pow2(k), 0, x);
      ClearLowIsRoundDown(x, k);
    } else {
      var p, m := Pow2(k - 1), Pow2(n - 1);
      var z := m - p;
      assert Pow2(n) - Pow2(k) == 2 * z;
      assert (2 * z) % 2 == 0 && (2 * z) / 2 == z;
      BitAndClearsLow(x / 2, n - 1, k - 1);
    }
  }

  /** x & (2^n - 2^k) is x rounded down to a multiple of 2^k. */
  lemma BitAndClearsLowBits(x: nat, n: nat, k: nat)
    requires Pow2(k) <= Pow2(n) && x < Pow2(n)
    ensures BitAnd(x, Pow2(n) - Pow2(k)) == x - x % Pow2(k)
  {
    BitAndClearsLow(x, n, k);
    ClearLowIsRoundDown(x, k);
  }

  /** Eight doublings make one factor of 256. */
  lemma Pow2Plus8(j: nat)
    ensures Pow2(j + 8) == 256 * Pow2(j)
  {
    assert Pow2(j + 8) == 2 * Pow2(j + 7);
    assert Pow2(j + 7) == 2 * Pow2(j + 6);
    assert Pow2(j + 6) == 2 * Pow2(j + 5);
    assert Pow2(j + 5) == 2 * Pow2(j + 4);
    assert Pow2(j + 4) == 2 * Pow2(j + 3);
    assert Pow2(j + 3) == 2 * Pow2(j + 2);
    assert Pow2(j + 2) == 2 * Pow2(j + 1);
  }

  lemma {:induction false} Pow2Bytes(m: nat)
    ensures Pow2(8 * m) == Pow256(m)
  {
    if m > 0 {
      Pow2Bytes(m - 1);
      Pow2Plus8(8 * (m - 1));
    }
  }

  lemma Pow2Word()
    ensures Pow2(64) == WordModulus
  {
    Pow2Bytes(8);
    Pow256Widths();
  }

  lemma {:induction false} Pow2Monotone(j: nat, k: nat)
    requires j <= k
    ensures Pow2(j) <= Pow2(k)
  {
    if j < k {
      Pow2Monotone(j, k - 1);
    }
  }

  /** A power of two below 2^64 is 2^k for some k <= 64. */
  lemma SmallPowerOfTwo(a: nat) returns (k: nat)
    requires IsPowerOfTwo(a) && a < WordModulus
    ensures Pow2(k) == a && k <= 64 && a <= Pow2(64)
  {
    k :| Pow2(k) == a;
    Pow2Word();
    if k > 64 {
      Pow2Monotone(64, k);
      assert false;
    }
  }

  /** Rounding x down to a multiple of a, written out. */
  lemma RoundDown(x: nat, a: nat)
    requires a > 0
    ensures (x - x % a) % a == 0 && x - a < x - x % a <= x
  {
    DivModUnique(x - x % a, a, x / a, 0);
  }

  /** Without wrap-around, align_up is the sum masked with the complement of alignment - 1. */
  lemma AlignUpNoWrap(offset: nat, alignment: nat)
    requires 0 < alignment < WordModulus
    requires offset + alignment - 1 < WordModulus
    ensures AlignUp(offset, alignment) == BitAnd(offset + alignment - 1, WordModulus - alignment)
  {
    var x := offset + alignment - 1;
    DivModUnique(x, WordModulus, 0, x);
    DivModUnique(alignment - 1, WordModulus, 0, alignment - 1);
    assert BitNot(alignment - 1) == WordModulus - alignment;
  }

  /** align_up rounds the offset down after adding a - 1, when that sum does not wrap. */
  lemma AlignUpValue(offset: nat, alignment: nat)
    requires IsPowerOfTwo(alignment) && alignment < WordModulus
    requires offset + alignment - 1 < WordModulus
    ensures alignment > 0
    ensures AlignUp(offset, alignment) == (offset + alignment - 1) - (offset + alignment - 1) % alignment
  {
    var k := SmallPowerOfTwo(alignment);
    var x := offset + alignment - 1;
    Pow2Word();
    AlignUpNoWrap(offset, alignment);
    BitAndClearsLowBits(x, 64, k);
  }

  /**
    For a power-of-two alignment and an offset that does not wrap, align_up
    gives a multiple of the alignment that is at least the offset and less
    than offset + alignment.
   */
  lemma AlignUpBounds(offset: nat, alignment: nat)
    requires IsPowerOfTwo(alignment) && alignment < WordModulus
    requires offset + alignment - 1 < WordModulus
    ensures alignment > 0
    ensures AlignUp(offset, alignment) % alignment == 0
    ensures offset <= AlignUp(offset, alignment) < offset + alignment
  {
    AlignUpValue(offset, alignment);
    var x := offset + alignment - 1;
    RoundDown(x, alignment);
    assert AlignUp(offset, alignment) == x - x % alignment;
  }

  /** Two multiples of a less than a apart are equal. */
  lemma MultiplesApart(r: nat, s: nat, a: nat)
    requires a > 0 && r % a == 0 && s % a == 0 && s <= r < s + a
    ensures r == s
  {
    var qr, qs := r / a, s / a;
    assert r == a * qr && s == a * qs;
    assert r - s == a * (qr - qs);
    DivModUnique(r - s, a, 0, r - s);
    DivModUnique(r - s, a, qr - qs, 0);
  }

  /** The least multiple of the alignment at or after the offset is align_up's. */
  lemma AlignUpIsLeastMultiple(offset: nat, alignment: nat, r: nat)
    requires IsPowerOfTwo(alignment) && alignment < WordModulus
    requires offset + alignment - 1 < WordModulus
    requires alignment > 0 && r % alignment == 0 && offset <= r < offset + alignment
    ensures r == AlignUp(offset, alignment)
  {
    AlignUpBounds(offset, alignment);
    var s := AlignUp(offset, alignment);
    if s <= r {
      MultiplesApart(r, s, alignment);
    } else {
      MultiplesApart(s, r, alignment);
    }
  }

  /** align_up leaves an offset unchanged exactly when it is already aligned. */
  lemma AlignUpFixedIffAligned(offset: nat, alignment: nat)
    requires IsPowerOfTwo(alignment) && alignment < WordModulus
    requires offset + alignment - 1 < WordModulus
    ensures alignment > 0
    ensures AlignUp(offset, alignment) == offset <==> IsAligned(offset, alignment)
  {
    AlignUpBounds(offset, alignment);
    if offset % alignment == 0 {
      AlignUpIsLeastMultiple(offset, alignment, offset);
    }
  }

  lemma {:induction false} Pow2Add(j: nat, k: nat)
    ensures Pow2(j + k) == Pow2(j) * Pow2(k)
  {
    if j > 0 {
      Pow2Add(j - 1, k);
      assert Pow2(j + k) == 2 * Pow2(j - 1 + k);
    }
  }

  lemma MultipleLessOne(a: int, q: int, w: int)
    requires w == q * a
    ensures w - a == a * (q - 1)
  {
  }

  /** A multiple of a power of two below 2^64 is at most 2^64 minus that power. */
  lemma AlignedBelowWord(r: nat, alignment: nat)
    requires IsPowerOfTwo(alignment) && alignment < WordModulus
    requires alignment > 0 && r % alignment == 0 && r < WordModulus
    ensures r + alignment <= WordModulus
  {
    var k := SmallPowerOfTwo(alignment);
    Pow2Word();
    Pow2Add(64 - k, k);
    var q := Pow2(64 - k);
    MultipleLessOne(alignment, q, WordModulus);
    DivModUnique(WordModulus - alignment, alignment, q - 1, 0);
    if r > WordModulus - alignment {
      MultiplesApart(r, WordModulus - alignment, alignment);
    }
  }

  /**
    Aligning twice is aligning once, for every 64-bit offset: when the sum
    wraps, align_up gives 0, which is aligned; otherwise it gives a multiple
    of the alignment that is fixed by a second align_up.
   */
  lemma AlignUpIdempotent(offset: nat, alignment: nat)
    requires IsPowerOfTwo(alignment) && alignment < WordModulus
    requires offset < WordModulus
    ensures AlignUp(AlignUp(offset, alignment), alignment) == AlignUp(offset, alignment)
  {
    var k := SmallPowerOfTwo(alignment);
    Pow2Word();
    var r := AlignUp(offset, alignment);
    if offset + alignment - 1 >= WordModulus {
      var x := offset + alignment - 1 - WordModulus;
      DivModUnique(offset + alignment - 1, WordModulus, 1, x);
      DivModUnique(alignment - 1, WordModulus, 0, alignment - 1);
      assert BitNot(alignment - 1) == Pow2(64) - Pow2(k);
      BitAndClearsLowBits(x, 64, k);
      DivModUnique(x, alignment, 0, x);
      assert r == 0;
      AlignUpFixedIffAligned(0, alignment);
    } else {
      AlignUpBounds(offset, alignment);
      AlignedBelowWord(r, alignment);
      AlignUpFixedIffAligned(r, alignment);
    }
  }

  /** The 64-bit wrap: align_up of the largest size_t to 8 is 0, not a value above it. */
  lemma AlignUpWraps()
    ensures AlignUp(WordModulus - 1, 8) == 0
  {
    assert (WordModulus - 1 + 8 - 1) % WordModulus == 6;
    assert BitNot(7) == WordModulus - 8;
    Pow2Word();
    assert Pow2(3) == 8;
    BitAndClearsLowBits(6, 64, 3);
  }
}
