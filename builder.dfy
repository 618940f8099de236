/**
  `RiftBufferBuilder`: an append-only byte buffer with a write head.

  The builder appends zero padding, little-endian values, headers, blank
  offset-table entries, strings and arrays at the write head, and overwrites
  exactly two kinds of earlier bytes: the total_size field of a header and a
  reserved offset-table entry. `buffer` holds the bytes below the write head;
  the vector's reserved capacity is not modelled.
 */
module Builder {
  import opened Bytes
  import opened Common
  import opened Types
  import opened Traits
  import opened Scalars

  /** The number of zero bytes padding writes at offset: `(alignment - offset % alignment) % alignment`. */
  function Padding(offset: nat, alignment: nat): (r: nat)
    requires alignment > 0
    ensures r < alignment
    ensures (offset + r) % alignment == 0
    ensures r == 0 <==> offset % alignment == 0
  {
    var m := offset % alignment;
    var q := offset / alignment;
    if m == 0 then
      assert (alignment - m) % alignment == 0 by { DivModUnique(alignment, alignment, 1, 0); }
      0
    else
      assert offset + (alignment - m) == alignment * (q + 1);
      DivModUnique(offset + (alignment - m), alignment, q + 1, 0);
      DivModUnique(alignment - m, alignment, 0, alignment - m);
      (alignment - m) % alignment
  }

  /** For a power-of-two alignment the padded offset is exactly `align_up` of the offset. */
  lemma PaddingIsAlignUp(offset: nat, alignment: nat)
    requires IsPowerOfTwo(alignment) && alignment < WordModulus
    requires offset + alignment - 1 < WordModulus
    ensures alignment > 0
    ensures offset + Padding(offset, alignment) == AlignUp(offset, alignment)
  {
    AlignUpBounds(offset, alignment);
    AlignUpIsLeastMultiple(offset, alignment, offset + Padding(offset, alignment));
  }

  /**
    The memory image of a `RiftObjectHeader` whose fields were each set to
    `to_little_endian` of h's fields: h's wire encoding, on either host.
   */
  function HeaderImage(host: HostOrder, h: ObjectHeader): (r: seq<u8>)
    ensures r == EncodeHeader(h)
  {
    Pow256Widths();
    StoredIsLittleEndian(host, h.magic, 4);
    StoredIsLittleEndian(host, h.schemaId, 4);
    StoredIsLittleEndian(host, h.totalSize, 4);
    StoredIsLittleEndian(host, h.versionFlags, 4);
    HostImage(host, ToLittleEndian(host, h.magic, 4), 4)
      + HostImage(host, ToLittleEndian(host, h.schemaId, 4), 4)
      + HostImage(host, ToLittleEndian(host, h.totalSize, 4), 4)
      + HostImage(host, ToLittleEndian(host, h.versionFlags, 4), 4)
  }

  /** The memory image of an `OffsetTableEntry` whose fields were set to `to_little_endian` of e's. */
  function EntryImage(host: HostOrder, e: OffsetTableEntry): (r: seq<u8>)
    ensures r == EncodeEntry(e)
  {
    Pow256Widths();
    StoredIsLittleEndian(host, e.offset, 4);
    StoredIsLittleEndian(host, e.size, 4);
    HostImage(host, ToLittleEndian(host, e.offset, 4), 4)
      + HostImage(host, ToLittleEndian(host, e.size, 4), 4)
  }

  /** Back-patching the total_size field changes that field of the header and no other. */
  lemma PatchedTotalSize(bs: seq<u8>, start: nat, total: u32)
    requires start + HeaderSize <= |bs|
    ensures DecodeHeader(Patch(bs, start + TotalSizeOffset, ToLE(total, 4)), start)
         == DecodeHeader(bs, start).(totalSize := total)
  {
    var patched := Patch(bs, start + TotalSizeOffset, ToLE(total, 4));
    assert patched[start..start + 4] == bs[start..start + 4];
    assert patched[start + 4..start + 8] == bs[start + 4..start + 8];
    assert patched[start + 12..start + 16] == bs[start + 12..start + 16];
    Pow256Widths();
    FromToLE(total, 4);
  }

  // --- The two bounds checks on caller-supplied offsets ---

  /** `EndObject`'s size check, as it evidently intends: the object ends after it starts and spans at most 2^32 - 1 bytes. */
  predicate EndSizeFits(start: nat, cursor: nat) {
    start <= cursor && cursor - start <= U32Max
  }

  /** `EndObject`'s size check as written: the 64-bit difference wraps when start lies past the write head. */
  predicate EndSizeFitsAsWritten(start: nat, cursor: nat)
    requires start < WordModulus && cursor < WordModulus
  {
    (cursor - start) % WordModulus <= U32Max
  }

  /** The two size checks agree whenever the object does not start past the write head. */
  lemma EndSizeChecksAgree(start: nat, cursor: nat)
    requires start <= cursor < WordModulus
    ensures EndSizeFitsAsWritten(start, cursor) == EndSizeFits(start, cursor)
  {
    DivModUnique(cursor - start, WordModulus, 0, cursor - start);
  }

  /**
    The written size check passes for an object start 16 bytes below 2^64
    with 16 bytes written: the difference wraps to 32, and the total_size
    patch then lands 8 bytes before the buffer.
   */
  lemma EndSizeCheckWrapsAround()
    ensures EndSizeFitsAsWritten(WordModulus - 16, 16)
    ensures !EndSizeFits(WordModulus - 16, 16)
  {
    DivModUnique(16 - (WordModulus - 16), WordModulus, -1, 32);
  }

  /** `UpdateOffsetTableEntry`'s bounds check, as it evidently intends: the whole entry lies below the write head. */
  predicate EntryInBounds(entry: nat, cursor: nat) {
    entry + EntrySize <= cursor
  }

  /** `UpdateOffsetTableEntry`'s bounds check as written: the 64-bit sum wraps before it is compared. */
  predicate EntryInBoundsAsWritten(entry: nat, cursor: nat)
    requires entry < WordModulus
  {
    (entry + EntrySize) % WordModulus <= cursor
  }

  /** The two bounds checks agree whenever the sum does not wrap. */
  lemma EntryChecksAgree(entry: nat, cursor: nat)
    requires entry + EntrySize < WordModulus
    ensures EntryInBoundsAsWritten(entry, cursor) == EntryInBounds(entry, cursor)
  {
    DivModUnique(entry + EntrySize, WordModulus, 0, entry + EntrySize);
  }

  /**
    The written bounds check and the alignment check both pass for the entry
    offset 2^64 - 8 with 16 bytes written: the sum wraps to 0, and the entry
    is then copied to the 8 bytes before the buffer.
   */
  lemma EntryCheckWrapsAround()
    ensures EntryInBoundsAsWritten(WordModulus - 8, 16)
    ensures IsAligned(WordModulus - 8, EntryAlign)
    ensures !EntryInBounds(WordModulus - 8, 16)
  {
    DivModUnique(WordModulus - 8 + EntrySize, WordModulus, 1, 0);
    DivModUnique(WordModulus - 8, EntryAlign, WordModulus / 4 - 2, 0);
  }

  /** After back-patching an entry, the entry at that offset reads back as the one written. */
  lemma PatchedEntry(bs: seq<u8>, at: nat, e: OffsetTableEntry)
    requires at + EntrySize <= |bs|
    ensures DecodeEntry(Patch(bs, at, EncodeEntry(e)), at) == e
  {
    DecodeEncodeEntry(e, bs[..at], bs[at + EntrySize..]);
  }

  class RiftBufferBuilder {
    /** The byte order of the machine the builder runs on. */
    const host: HostOrder
    /** The bytes below the write head. */
    var buffer: seq<u8>
    /** `m_current_offset`: the write head. */
    var cursor: nat

    predicate Valid()
      reads this
    {
      |buffer| == cursor
    }

    /** The default constructor: an empty buffer. */
    constructor (host: HostOrder)
      ensures Valid() && this.host == host
      ensures buffer == [] && cursor == 0
    {
      this.host := host;
      buffer := [];
      cursor := 0;
    }

    /** The constructor that reserves initialCapacity bytes; capacity has no visible effect. */
    constructor WithCapacity(host: HostOrder, initialCapacity: nat)
      ensures Valid() && this.host == host
      ensures buffer == [] && cursor == 0
    {
      this.host := host;
      buffer := [];
      cursor := 0;
    }

    /** The number of bytes written. */
    method GetSize() returns (size: nat)
      requires Valid()
      ensures size == |buffer|
    {
      size := cursor;
    }

    /** The offset the next write goes to: the end of the written bytes. */
    method GetCurrentOffset() returns (offset: nat)
      requires Valid()
      ensures offset == |buffer|
    {
      offset := cursor;
    }

    /** The bytes the buffer pointer designates, up to the write head. */
    method GetBufferPtr() returns (bytes: seq<u8>)
      requires Valid()
      ensures bytes == buffer
    {
      bytes := buffer;
    }

    /** Empties the builder. */
    method Reset()
      modifies this
      ensures Valid()
      ensures buffer == [] && cursor == 0
    {
      cursor := 0;
      buffer := [];
    }

    /** Appends data at the write head and advances it past them. */
    method WriteRaw(data: seq<u8>)
      requires Valid()
      modifies this
      ensures Valid()
      ensures buffer == old(buffer) + data
      ensures cursor == old(cursor) + |data|
    {
      buffer := buffer + data;
      cursor := cursor + |data|;
    }

    /** Appends the Size(p) little-endian bytes of v, a value of a primitive type other than bool. */
    method WriteValue(p: Primitive, v: int)
      requires Valid()
      requires p != Bool && InRange(p, v) && Modelled(host, p)
      modifies this
      ensures Valid()
      ensures buffer == old(buffer) + Encode(p, v)
      ensures cursor == old(cursor) + Size(p)
    {
      var n := Size(p);
      var leValue := ToLittleEndian(host, Bits(p, v), n);
      StoredIsLittleEndian(host, Bits(p, v), n);
      WriteRaw(HostImage(host, leValue, n));
    }

    /** Appends one byte, 1 for true and 0 for false. */
    method WriteBool(value: bool)
      requires Valid()
      modifies this
      ensures Valid()
      ensures buffer == old(buffer) + [if value then 1 else 0]
      ensures cursor == old(cursor) + 1
    {
      var b := if value then 1 else 0;
      var leValue := ToLittleEndian(host, b, 1);
      SingleByteUnchanged(host, b);
      WriteRaw(HostImage(host, leValue, 1));
    }

    /** Appends the fewest zero bytes that bring the write head to a multiple of alignment. */
    method PadToAlignment(alignment: nat)
      requires Valid() && alignment > 0
      modifies this
      ensures Valid()
      ensures cursor == old(cursor) + Padding(old(cursor), alignment)
      ensures cursor % alignment == 0 && old(cursor) <= cursor < old(cursor) + alignment
      ensures buffer == old(buffer) + Zeros(cursor - old(cursor))
    {
      var padding := (alignment - cursor % alignment) % alignment;
      if padding > 0 {
        WriteRaw(Zeros(padding));
      } else {
        assert buffer + Zeros(0) == buffer;
      }
    }

    /**
      Pads to the header's alignment and appends a header with the magic number,
      schemaId, a zero total_size and versionFlags. Returns the header's offset.
     */
    method BeginObject(schemaId: u32, versionFlags: u32) returns (start: nat)
      requires Valid()
      modifies this
      ensures Valid()
      ensures start == old(cursor) + Padding(old(cursor), HeaderAlign)
      ensures start % HeaderAlign == 0
      ensures buffer == old(buffer) + Zeros(start - old(cursor))
                        + EncodeHeader(ObjectHeader(RiftMagicNumber, schemaId, 0, versionFlags))
      ensures cursor == start + HeaderSize
    {
      PadToAlignment(HeaderAlign);
      start := cursor;
      ghost var padded := buffer;
      var h := ObjectHeader(RiftMagicNumber, schemaId, 0, versionFlags);
      var header := HeaderImage(host, h);
      WriteRaw(header);
      AppendAssoc(old(buffer), Zeros(start - old(cursor)), header);
    }

    /**
      Writes the object's length, from start to the write head, into the
      total_size field of the header at start and returns it; fails, writing
      nothing, when the object starts past the write head or its length does
      not fit 32 bits (the intended reading of the size check, `EndSizeFits`).
     */
    method EndObject(start: nat) returns (r: Result<nat>)
      requires Valid()
      requires start > cursor || start + TotalSizeOffset + 4 <= cursor
      modifies this
      ensures Valid() && cursor == old(cursor)
      ensures r.Ok? <==> EndSizeFits(start, old(cursor))
      ensures r.Ok? ==> r.value == old(cursor) - start
                        && buffer == Patch(old(buffer), start + TotalSizeOffset, ToLE(r.value, 4))
      ensures r.Fail? ==> r.failure == TotalSizeExceedsUint32 && buffer == old(buffer)
    {
      if start > cursor || cursor - start > U32Max {
        return Fail(TotalSizeExceedsUint32);
      }
      var total := cursor - start;
      Pow256Widths();
      var leTotal := ToLittleEndian(host, total, 4);
      StoredIsLittleEndian(host, total, 4);
      buffer := Patch(buffer, start + TotalSizeOffset, HostImage(host, leTotal, 4));
      r := Ok(total);
    }

    /** Pads to the entry's alignment, appends a blank entry and returns its offset. */
    method ReserveOffsetTableEntry() returns (entry: nat)
      requires Valid()
      modifies this
      ensures Valid()
      ensures entry == old(cursor) + Padding(old(cursor), EntryAlign)
      ensures entry % EntryAlign == 0
      ensures buffer == old(buffer) + Zeros(entry - old(cursor)) + EncodeEntry(OffsetTableEntry(0, 0))
      ensures cursor == entry + EntrySize
    {
      PadToAlignment(EntryAlign);
      entry := cursor;
      BlankEntryIsZeros();
      WriteRaw(Zeros(EntrySize));
    }

    /**
      Overwrites the entry at offset entry with (dataOffset, dataSize). Fails,
      writing nothing, when the entry is not wholly below the write head or is
      misaligned, checked in that order (the intended reading of the bounds
      check, `EntryInBounds`).
     */
    method UpdateOffsetTableEntry(entry: nat, dataOffset: u32, dataSize: u32) returns (s: Status)
      requires Valid() && entry < WordModulus
      modifies this
      ensures Valid() && cursor == old(cursor)
      ensures !EntryInBounds(entry, old(cursor)) ==> s == Failed(EntryOutOfCurrentBounds)
      ensures EntryInBounds(entry, old(cursor)) && !IsAligned(entry, EntryAlign) ==> s == Failed(UnalignedEntry)
      ensures s.Done? <==> EntryInBounds(entry, old(cursor)) && IsAligned(entry, EntryAlign)
      ensures s.Done? ==> buffer == Patch(old(buffer), entry, EncodeEntry(OffsetTableEntry(dataOffset, dataSize)))
      ensures s.Failed? ==> buffer == old(buffer)
    {
      if !EntryInBounds(entry, cursor) {
        return Failed(EntryOutOfCurrentBounds);
      }
      if !IsAligned(entry, EntryAlign) {
        return Failed(UnalignedEntry);
      }
      buffer := Patch(buffer, entry, EntryImage(host, OffsetTableEntry(dataOffset, dataSize)));
      s := Done;
    }

    /**
      Appends the bytes of str and a zero terminator, with no padding, and
      returns the offset they start at, truncated to 32 bits.
     */
    method AddString(str: seq<u8>) returns (offset: u32)
      requires Valid()
      modifies this
      ensures Valid()
      ensures offset == old(cursor) % U32Modulus
      ensures buffer == old(buffer) + str + [0]
      ensures cursor == old(cursor) + |str| + 1
    {
      offset := cursor % U32Modulus;
      WriteRaw(str);
      WriteRaw([0]);
    }

    /**
      Writes one array element: the overload the element type selects, which
      is the bool one for bool and the little-endian one otherwise.
     */
    method WriteElement(p: Primitive, e: int)
      requires Valid() && InRange(p, e) && Modelled(host, p)
      modifies this
      ensures Valid()
      ensures buffer == old(buffer) + Encode(p, e)
    {
      if p == Bool {
        WriteBool(e == 1);
      } else {
        WriteValue(p, e);
      }
    }

    /** The loop of `AddArray`: appends the elements of arr one after another. */
    method WriteElements(p: Primitive, arr: seq<int>)
      requires Valid()
      requires forall k :: 0 <= k < |arr| ==> InRange(p, arr[k])
      requires Modelled(host, p)
      modifies this
      ensures Valid()
      ensures buffer == old(buffer) + EncodeArray(p, arr)
    {
      ghost var before := buffer;
      for i := 0 to |arr|
        invariant Valid()
        invariant buffer == before + EncodeArray(p, arr[..i])
      {
        ghost var written := EncodeArray(p, arr[..i]);
        WriteElement(p, arr[i]);
        AppendAssoc(before, written, Encode(p, arr[i]));
        EncodeArraySnoc(p, arr[..i], arr[i]);
        assert arr[..i + 1] == arr[..i] + [arr[i]];
      }
      assert arr[..|arr|] == arr;
    }

    /**
      Pads to the element alignment and appends every element of arr in order,
      each as it would be written alone. Returns the offset of the first
      element, truncated to 32 bits.
     */
    method AddArray(p: Primitive, arr: seq<int>) returns (offset: u32)
      requires Valid()
      requires forall k :: 0 <= k < |arr| ==> InRange(p, arr[k])
      requires Modelled(host, p)
      modifies this
      ensures Valid()
      ensures offset == (old(cursor) + Padding(old(cursor), Align(p))) % U32Modulus
      ensures buffer == old(buffer) + Zeros(Padding(old(cursor), Align(p))) + EncodeArray(p, arr)
    {
      PadToAlignment(Align(p));
      offset := cursor % U32Modulus;
      WriteElements(p, arr);
    }
  }
}
