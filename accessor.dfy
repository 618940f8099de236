/**
  Zero-copy accessors: the views and reads a generated schema view uses on a
  finished buffer.

  Memory is a byte sequence indexed by address and a pointer is an address;
  address 0 is the null pointer. Each accessor checks what the library's
  assertions check and reports the first that fails; a memory read the
  library performs without a check is a precondition.
 */
module Accessor {
  import opened Bytes
  import opened Common
  import opened Types
  import opened Traits
  import opened Scalars

  /** The byte at each address. */
  type Memory = seq<u8>

  /**
    The n-byte value at address at, as the host loads it and `from_little_endian`
    converts it: the little-endian value of those bytes, on either host.
   */
  function LoadLittleEndian(host: HostOrder, mem: Memory, at: nat, n: nat): (r: nat)
    requires n == 1 || n == 2 || n == 4 || n == 8
    requires at + n <= |mem|
    ensures r == FromLE(mem[at..at + n])
  {
    LoadedIsLittleEndian(host, mem[at..at + n]);
    FromLittleEndian(host, HostLoad(host, mem[at..at + n]), n)
  }

  // --- RiftBufferViewBase ---

  /** A view: the address of the buffer start, which is where the header is, and the host. */
  datatype RiftBufferView = RiftBufferView(host: HostOrder, start: nat)

  /**
    The view constructor: fails on a null start, then on a wrong magic number,
    then on a total_size smaller than the header. The header's alignment is not
    checked.
   */
  function NewView(host: HostOrder, mem: Memory, start: nat): (r: Result<RiftBufferView>)
    requires start != 0 ==> start + HeaderSize <= |mem|
    ensures r.Ok? <==> start != 0 && DecodeHeader(mem, start).magic == RiftMagicNumber
                       && DecodeHeader(mem, start).totalSize >= HeaderSize
    ensures start == 0 ==> r == Fail(NullBufferStart)
    ensures start != 0 && DecodeHeader(mem, start).magic != RiftMagicNumber ==> r == Fail(InvalidMagicNumber)
    ensures (start != 0 && DecodeHeader(mem, start).magic == RiftMagicNumber
             && DecodeHeader(mem, start).totalSize < HeaderSize) ==> r == Fail(TotalSizeTooSmall)
    ensures r.Ok? ==> r.value == RiftBufferView(host, start)
  {
    if start == 0 then Fail(NullBufferStart)
    else if LoadLittleEndian(host, mem, start + MagicOffset, 4) != RiftMagicNumber then Fail(InvalidMagicNumber)
    else if LoadLittleEndian(host, mem, start + TotalSizeOffset, 4) < HeaderSize then Fail(TotalSizeTooSmall)
    else Ok(RiftBufferView(host, start))
  }

  /** `GetSchemaId`: the header's schema_id field. */
  function GetSchemaId(mem: Memory, v: RiftBufferView): (r: u32)
    requires v.start + HeaderSize <= |mem|
    ensures r == DecodeHeader(mem, v.start).schemaId
  {
    Pow256Widths();
    LoadLittleEndian(v.host, mem, v.start + SchemaIdOffset, 4)
  }

  /** `GetTotalSize`: the header's total_size field. */
  function GetTotalSize(mem: Memory, v: RiftBufferView): (r: u32)
    requires v.start + HeaderSize <= |mem|
    ensures r == DecodeHeader(mem, v.start).totalSize
  {
    Pow256Widths();
    LoadLittleEndian(v.host, mem, v.start + TotalSizeOffset, 4)
  }

  /** `GetVersionFlags`: the header's version_flags field. */
  function GetVersionFlags(mem: Memory, v: RiftBufferView): (r: u32)
    requires v.start + HeaderSize <= |mem|
    ensures r == DecodeHeader(mem, v.start).versionFlags
  {
    Pow256Widths();
    LoadLittleEndian(v.host, mem, v.start + VersionFlagsOffset, 4)
  }

  /**
    `GetPtrAtOffset`, with the bounds check it evidently intends: the address
    of byte offset of the object, provided the sizeNeeded bytes from there lie
    within the object's total_size. (The default sizeNeeded is 1.)
   */
  function GetPtrAtOffset(mem: Memory, v: RiftBufferView, offset: u32, sizeNeeded: nat): (r: Result<nat>)
    requires v.start + HeaderSize <= |mem|
    requires sizeNeeded < WordModulus
    ensures r.Ok? <==> offset + sizeNeeded <= DecodeHeader(mem, v.start).totalSize
    ensures r.Ok? ==> r.value == v.start + offset
    ensures r.Fail? ==> r.failure == AccessOutOfBounds
  {
    if offset + sizeNeeded <= GetTotalSize(mem, v) then Ok(v.start + offset) else Fail(AccessOutOfBounds)
  }

  /**
    `GetPtrAtOffset` as written: the sum `offset + size_needed` is a 64-bit
    `size_t` and wraps before it is compared.
   */
  function GetPtrAtOffsetAsWritten(mem: Memory, v: RiftBufferView, offset: u32, sizeNeeded: nat): (r: Result<nat>)
    requires v.start + HeaderSize <= |mem|
    requires sizeNeeded < WordModulus
    ensures r.Ok? <==> (offset + sizeNeeded) % WordModulus <= DecodeHeader(mem, v.start).totalSize
    ensures r.Ok? ==> r.value == v.start + offset
  {
    if (offset + sizeNeeded) % WordModulus <= GetTotalSize(mem, v) then Ok(v.start + offset) else Fail(AccessOutOfBounds)
  }

  /** The written and the intended check agree whenever the sum does not wrap. */
  lemma PtrChecksAgreeWithoutWrap(mem: Memory, v: RiftBufferView, offset: u32, sizeNeeded: nat)
    requires v.start + HeaderSize <= |mem|
    requires offset + sizeNeeded < WordModulus
    ensures GetPtrAtOffsetAsWritten(mem, v, offset, sizeNeeded) == GetPtrAtOffset(mem, v, offset, sizeNeeded)
  {
  }

  /**
    The written check admits a range that runs past the object: a 16-byte
    object, offset 16 and a size of 2^64 - 1, whose sum wraps to 15.
   */
  lemma PtrCheckWrapsAround()
    ensures var mem := Zeros(8) + EncodeHeader(ObjectHeader(RiftMagicNumber, 0, HeaderSize, 0));
            var v := RiftBufferView(LittleEndianHost, 8);
            GetPtrAtOffsetAsWritten(mem, v, 16, WordModulus - 1) == Ok(24)
            && GetPtrAtOffset(mem, v, 16, WordModulus - 1) == Fail(AccessOutOfBounds)
            && 16 + (WordModulus - 1) > DecodeHeader(mem, 8).totalSize
  {
    var h := ObjectHeader(RiftMagicNumber, 0, HeaderSize, 0);
    DecodeEncodeHeader(h, Zeros(8), []);
    assert Zeros(8) + EncodeHeader(h) + [] == Zeros(8) + EncodeHeader(h);
  }

  // --- Fixed-size fields ---

  /**
    `GetFixedField<T>`: the value of a primitive type at bufferStart + offset,
    decoded from little-endian, provided that address is aligned for the type.
   */
  function GetFixedField(host: HostOrder, mem: Memory, bufferStart: nat, offset: u32, p: Primitive): (r: Result<int>)
    requires bufferStart + offset + Size(p) <= |mem|
    requires Modelled(host, p)
    ensures r.Ok? <==> IsAligned(bufferStart + offset, Align(p))
    ensures r.Fail? ==> r.failure == UnalignedFieldAccess
    ensures r.Ok? ==> r.value == Decode(p, mem[bufferStart + offset..bufferStart + offset + Size(p)])
  {
    var at := bufferStart + offset;
    if !IsAligned(at, Align(p)) then Fail(UnalignedFieldAccess)
    else Ok(FromBits(p, LoadLittleEndian(host, mem, at, Size(p))))
  }

  /** The bool overload: true exactly when the byte is nonzero; a byte is always aligned. */
  function GetFixedFieldBool(host: HostOrder, mem: Memory, bufferStart: nat, offset: u32): (r: Result<bool>)
    requires bufferStart + offset < |mem|
    ensures r.Ok?
    ensures r.value <==> mem[bufferStart + offset] != 0
  {
    var at := bufferStart + offset;
    if !IsAligned(at, 1) then Fail(UnalignedFieldAccess)
    else Ok(LoadLittleEndian(host, mem, at, 1) != 0)
  }

  // --- RiftStringView ---

  /** A string view: the address of the characters and their count, the terminator excluded. */
  datatype RiftStringView = RiftStringView(data: nat, length: u32)

  /** The string view constructor: fails on a null data pointer only. */
  function NewStringView(data: nat, length: u32): (r: Result<RiftStringView>)
    ensures r.Ok? <==> data != 0
    ensures r.Fail? ==> r.failure == NullStringData
    ensures r.Ok? ==> r.value.data == data && r.value.length == length
  {
    if data == 0 then Fail(NullStringData) else Ok(RiftStringView(data, length))
  }

  /** `length()`. */
  function StringLength(sv: RiftStringView): u32 {
    sv.length
  }

  /** `c_str()`. */
  function CStr(sv: RiftStringView): nat {
    sv.data
  }

  /** `empty()`. */
  function StringEmpty(sv: RiftStringView): bool {
    sv.length == 0
  }

  /** `to_string()`: a copy of the length bytes at the data pointer. */
  function ToString(mem: Memory, sv: RiftStringView): (r: seq<u8>)
    requires sv.data + sv.length <= |mem|
    ensures |r| == StringLength(sv)
    ensures forall i :: 0 <= i < |r| ==> r[i] == mem[CStr(sv) + i]
  {
    mem[sv.data..sv.data + sv.length]
  }

  /** A constructed string view reports the count and pointer it was given, and is empty exactly for count 0. */
  lemma StringViewReports(data: nat, length: u32)
    requires data != 0
    ensures NewStringView(data, length).Ok?
    ensures StringLength(NewStringView(data, length).value) == length
    ensures CStr(NewStringView(data, length).value) == data
    ensures StringEmpty(NewStringView(data, length).value) <==> length == 0
  {
  }

  // --- RiftArrayView ---

  /** An array view: element type, the address of the first element, and the element count. */
  datatype RiftArrayView = RiftArrayView(elem: Primitive, start: nat, count: u32)

  /** The array view constructor: fails on a null data pointer only. */
  function NewArrayView(p: Primitive, data: nat, count: u32): (r: Result<RiftArrayView>)
    ensures r.Ok? <==> data != 0
    ensures r.Fail? ==> r.failure == NullArrayData
    ensures r.Ok? ==> r.value == RiftArrayView(p, data, count)
  {
    if data == 0 then Fail(NullArrayData) else Ok(RiftArrayView(p, data, count))
  }

  /** `size()`. */
  function ArraySize(av: RiftArrayView): u32 {
    av.count
  }

  /** `empty()`. */
  function ArrayEmpty(av: RiftArrayView): bool {
    av.count == 0
  }

  /** A constructed array view reports the count it was given, and is empty exactly for count 0. */
  lemma ArrayViewReports(p: Primitive, data: nat, count: u32)
    requires data != 0
    ensures NewArrayView(p, data, count).Ok?
    ensures ArraySize(NewArrayView(p, data, count).value) == count
    ensures ArrayEmpty(NewArrayView(p, data, count).value) <==> count == 0
  {
  }

  /** The byte offset of element index: `index * sizeof(T)` truncated to 32 bits. */
  function ElementOffset(p: Primitive, index: u32): u32 {
    (index * Size(p)) % U32Modulus
  }

  /** Within the 32-bit range there is no truncation: element index is index * Size(p) bytes in. */
  lemma ElementOffsetExact(p: Primitive, index: u32)
    requires index * Size(p) < U32Modulus
    ensures ElementOffset(p, index) == index * Size(p)
  {
  }

  /**
    `operator[]`: fails on an index not below the count, then on a misaligned
    element address; otherwise the element decoded as `GetFixedField` decodes
    it. (Every fixed-size type is POD, so the branch that copies raw bytes
    instead is never taken.)
   */
  function ArrayAt(host: HostOrder, mem: Memory, av: RiftArrayView, index: u32): (r: Result<int>)
    requires Modelled(host, av.elem)
    requires index < av.count ==> av.start + ElementOffset(av.elem, index) + Size(av.elem) <= |mem|
    ensures r.Ok? <==> index < av.count && IsAligned(av.start + ElementOffset(av.elem, index), Align(av.elem))
    ensures index >= av.count ==> r == Fail(ArrayIndexOutOfBounds)
    ensures (index < av.count && !IsAligned(av.start + ElementOffset(av.elem, index), Align(av.elem)))
            ==> r == Fail(UnalignedElementAccess)
    ensures r.Ok? ==> var at := av.start + ElementOffset(av.elem, index);
                      r.value == Decode(av.elem, mem[at..at + Size(av.elem)])
  {
    if index >= av.count then Fail(ArrayIndexOutOfBounds)
    else
      var offset := ElementOffset(av.elem, index);
      if !IsAligned(av.start + offset, Align(av.elem)) then Fail(UnalignedElementAccess)
      else GetFixedField(host, mem, av.start, offset, av.elem)
  }

  /** An in-range element whose bytes, at an aligned address, encode v is read back as v. */
  lemma ElementReadBack(host: HostOrder, mem: Memory, p: Primitive, start: nat, count: u32, index: u32, lo: nat, v: int)
    requires Modelled(host, p) && InRange(p, v) && index < count
    requires ElementOffset(p, index) == lo && start + lo + Size(p) <= |mem|
    requires IsAligned(start + lo, Align(p))
    requires mem[start + lo..start + lo + Size(p)] == Encode(p, v)
    ensures ArrayAt(host, mem, RiftArrayView(p, start, count), index) == Ok(v)
  {
    DecodeEncode(p, v);
  }

  // --- Offset table ---

  /** Adding a multiple of 8 keeps 4-alignment. */
  lemma AlignedPlusEntries(a: nat, k: nat)
    requires a % EntryAlign == 0
    ensures (a + EntrySize * k) % EntryAlign == 0
  {
    DivModUnique(a + EntrySize * k, EntryAlign, a / EntryAlign + 2 * k, 0);
  }

  /**
    `GetOffsetTableEntry`: the address of entry entryIndex of the table at
    objectBase + tableOffset. Fails, in this order, on a null base, a zero
    table offset, an index not below the expected count, and a misaligned
    table; the fifth check, on the entry's byte offset, can never fail.
   */
  function GetOffsetTableEntry(objectBase: nat, tableOffset: u32, entryIndex: u32, expectedEntries: u32): (r: Result<nat>)
    ensures r.Ok? <==> objectBase != 0 && tableOffset > 0 && entryIndex < expectedEntries
                       && IsAligned(objectBase + tableOffset, EntryAlign)
    ensures objectBase == 0 ==> r == Fail(NullObjectBase)
    ensures objectBase != 0 && tableOffset == 0 ==> r == Fail(NonPositiveTableOffset)
    ensures objectBase != 0 && tableOffset > 0 && entryIndex >= expectedEntries ==> r == Fail(EntryIndexOutOfBounds)
    ensures (objectBase != 0 && tableOffset > 0 && entryIndex < expectedEntries
             && !IsAligned(objectBase + tableOffset, EntryAlign)) ==> r == Fail(UnalignedOffsetTable)
    ensures r != Fail(EntryBeyondTable)
    ensures r.Ok? ==> r.value == objectBase + tableOffset + EntrySize * entryIndex
                      && IsAligned(r.value, EntryAlign)
  {
    if objectBase == 0 then Fail(NullObjectBase)
    else if tableOffset == 0 then Fail(NonPositiveTableOffset)
    else if entryIndex >= expectedEntries then Fail(EntryIndexOutOfBounds)
    else if !IsAligned(objectBase + tableOffset, EntryAlign) then Fail(UnalignedOffsetTable)
    else if !(entryIndex * EntrySize < expectedEntries * EntrySize) then Result<nat>.Fail(EntryBeyondTable)
    else
      AlignedPlusEntries(objectBase + tableOffset, entryIndex);
      Ok(objectBase + tableOffset + EntrySize * entryIndex)
  }
}
