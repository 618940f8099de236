/**
  The wire encoding of the eleven primitive types: their size and alignment,
  the bit pattern a value has in memory (two's complement for the signed
  integers, 0 or 1 for bool, an opaque pattern for float and double), and
  the little-endian bytes of a value and of a run of values.
 */
module Scalars {
  import opened Bytes
  import opened Common
  import opened Traits

  /** `sizeof(T)`. */
  function Size(p: Primitive): (r: nat)
    ensures 1 <= r <= 8
  {
    match p
    case Int8 => 1
    case UInt8 => 1
    case Bool => 1
    case Int16 => 2
    case UInt16 => 2
    case Int32 => 4
    case UInt32 => 4
    case Float => 4
    case Int64 => 8
    case UInt64 => 8
    case Double => 8
  }

  /** `alignof(T)`: each primitive is aligned to its own size. */
  function Align(p: Primitive): (r: nat)
    ensures r > 0 && r == Size(p)
  {
    Size(p)
  }

  predicate IsFloat(p: Primitive) {
    p == Float || p == Double
  }

  predicate IsSigned(p: Primitive) {
    p == Int8 || p == Int16 || p == Int32 || p == Int64
  }

  /**
    The values of the type: 0 and 1 for bool, the two's-complement range for
    the signed integers, and the bit patterns of the width for the unsigned
    integers and for float and double.
   */
  predicate InRange(p: Primitive, v: int) {
    if p == Bool then v == 0 || v == 1
    else if IsSigned(p) then -(Pow256(Size(p)) / 2) <= v < Pow256(Size(p)) / 2
    else 0 <= v < Pow256(Size(p))
  }

  /**
    The host configurations whose conversion the model covers. On a big-endian
    host the library byte-swaps a float or double through a value conversion
    to an integer, which is not a bit copy; those are not modelled.
   */
  predicate Modelled(host: HostOrder, p: Primitive) {
    host == LittleEndianHost || !IsFloat(p)
  }

  /** The unsigned bit pattern of v: the conversion to the unsigned type of the same width. */
  function Bits(p: Primitive, v: int): (b: nat)
    requires InRange(p, v)
    ensures b < Pow256(Size(p))
    ensures v >= 0 ==> b == v
    ensures v < 0 ==> b == v + Pow256(Size(p))
  {
    if v < 0 then v + Pow256(Size(p)) else v
  }

  /**
    The value whose bit pattern is b: the conversion back to the type. A bool
    byte is true exactly when it is nonzero.
   */
  function FromBits(p: Primitive, b: nat): (v: int)
    requires b < Pow256(Size(p))
    ensures InRange(p, v)
  {
    if p == Bool then (if b == 0 then 0 else 1)
    else if IsSigned(p) && b >= Pow256(Size(p)) / 2 then b - Pow256(Size(p))
    else b
  }

  /** The Size(p) little-endian bytes of v. */
  function Encode(p: Primitive, v: int): (r: seq<u8>)
    requires InRange(p, v)
    ensures |r| == Size(p)
  {
    ToLE(Bits(p, v), Size(p))
  }

  /** The value whose little-endian bytes are bs. */
  function Decode(p: Primitive, bs: seq<u8>): (v: int)
    requires |bs| == Size(p)
    ensures InRange(p, v)
  {
    FromBits(p, FromLE(bs))
  }

  /** Every value of every primitive type survives encoding and decoding. */
  lemma DecodeEncode(p: Primitive, v: int)
    requires InRange(p, v)
    ensures Decode(p, Encode(p, v)) == v
  {
    FromToLE(Bits(p, v), Size(p));
  }

  /**
    Decoding then re-encoding gives the bytes back, for every type except
    bool, where it holds exactly for the bytes 0 and 1.
   */
  lemma EncodeDecode(p: Primitive, bs: seq<u8>)
    requires |bs| == Size(p)
    ensures p != Bool || bs[0] < 2 <==> Encode(p, Decode(p, bs)) == bs
  {
    ToFromLE(bs);
    if p == Bool {
      assert bs == [bs[0]];
      assert FromLE(bs) == bs[0];
    }
  }

  /** bool is one byte holding 0 or 1. */
  lemma BoolEncoding(v: int)
    requires InRange(Bool, v)
    ensures Encode(Bool, v) == [v]
  {
  }

  /** A negative signed value is stored as its two's complement: -1 is all ones. */
  lemma MinusOneIsAllOnes(p: Primitive)
    requires IsSigned(p)
    ensures Encode(p, -1) == ToLE(Pow256(Size(p)) - 1, Size(p))
  {
    Pow256Widths();
  }

  /** The bytes of the elements of es, one after another. */
  function EncodeArray(p: Primitive, es: seq<int>): (r: seq<u8>)
    requires forall k :: 0 <= k < |es| ==> InRange(p, es[k])
    ensures |r| == |es| * Size(p)
  {
    if es == [] then [] else EncodeArray(p, es[..|es| - 1]) + Encode(p, es[|es| - 1])
  }

  /** i < m gives room for element i in m elements of n bytes. */
  lemma ElementFits(i: nat, m: nat, n: nat)
    requires i < m
    ensures i * n + n <= m * n
  {
    assert m * n == (m - 1) * n + n;
    assert i * n <= (m - 1) * n;
  }

  /** Element i of an encoded array occupies the Size(p) bytes from lo = i * Size(p). */
  lemma EncodeArrayElement(p: Primitive, es: seq<int>, i: nat, lo: nat)
    requires forall k :: 0 <= k < |es| ==> InRange(p, es[k])
    requires i < |es| && lo == i * Size(p)
    ensures lo + Size(p) <= |es| * Size(p)
    ensures EncodeArray(p, es)[lo..lo + Size(p)] == Encode(p, es[i])
  {
    var before := es[..i];
    var after := es[i + 1..];
    assert es == before + [es[i]] + after;
    EncodeArrayAppend(p, before + [es[i]], after);
    EncodeArrayAppend(p, before, [es[i]]);
    assert [es[i]][..0] == [];
    var front := EncodeArray(p, before);
    assert |front| == lo;
    assert EncodeArray(p, es) == front + Encode(p, es[i]) + EncodeArray(p, after);
  }

  /** The encoding of a concatenation is the concatenation of the encodings. */
  lemma {:induction false} EncodeArrayAppend(p: Primitive, a: seq<int>, b: seq<int>)
    requires forall k :: 0 <= k < |a| ==> InRange(p, a[k])
    requires forall k :: 0 <= k < |b| ==> InRange(p, b[k])
    ensures forall k :: 0 <= k < |a + b| ==> InRange(p, (a + b)[k])
    ensures EncodeArray(p, a + b) == EncodeArray(p, a) + EncodeArray(p, b)
    decreases |b|
  {
    assert forall k :: 0 <= k < |a + b| ==> InRange(p, (a + b)[k]) by {
      forall k | 0 <= k < |a + b| ensures InRange(p, (a + b)[k]) {
        if k < |a| { assert (a + b)[k] == a[k]; } else { assert (a + b)[k] == b[k - |a|]; }
      }
    }
    if b == [] {
      assert a + b == a;
    } else {
      var init := b[..|b| - 1];
      assert (a + b)[..|a + b| - 1] == a + init;
      assert (a + b)[|a + b| - 1] == b[|b| - 1];
      var last := Encode(p, b[|b| - 1]);
      assert EncodeArray(p, a + b) == EncodeArray(p, a + init) + last;
      assert EncodeArray(p, b) == EncodeArray(p, init) + last;
      EncodeArrayAppend(p, a, init);
      AppendAssoc(EncodeArray(p, a), EncodeArray(p, init), last);
    }
  }

  /** Decoding any element of an encoded array gives that element back. */
  lemma DecodeArrayElement(p: Primitive, es: seq<int>, i: nat, lo: nat)
    requires forall k :: 0 <= k < |es| ==> InRange(p, es[k])
    requires i < |es| && lo == i * Size(p)
    ensures lo + Size(p) <= |es| * Size(p)
    ensures Decode(p, EncodeArray(p, es)[lo..lo + Size(p)]) == es[i]
  {
    EncodeArrayElement(p, es, i, lo);
    DecodeEncode(p, es[i]);
  }

  /** Appending an element to the array appends its encoding. */
  lemma EncodeArraySnoc(p: Primitive, es: seq<int>, e: int)
    requires forall k :: 0 <= k < |es| ==> InRange(p, es[k])
    requires InRange(p, e)
    ensures EncodeArray(p, es + [e]) == EncodeArray(p, es) + Encode(p, e)
  {
    assert (es + [e])[..|es|] == es;
  }
}
