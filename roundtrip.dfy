/**
  What the builder writes, the accessors read back: each accessor applied to
  bytes laid out as the builder lays them out returns the value written, and
  two clients build an object and then read every field of it back.
 */
module RoundTrip {
  import opened Bytes
  import opened Common
  import opened Types
  import opened Traits
  import opened Scalars
  import opened Builder
  import opened Accessor

  /** A finished header at a non-null address opens as a view whose getters return its fields. */
  lemma ViewOfHeader(host: HostOrder, mem: Memory, start: nat, h: ObjectHeader)
    requires start != 0 && start + HeaderSize <= |mem|
    requires DecodeHeader(mem, start) == h
    requires h.magic == RiftMagicNumber && h.totalSize >= HeaderSize
    ensures NewView(host, mem, start) == Ok(RiftBufferView(host, start))
    ensures GetSchemaId(mem, RiftBufferView(host, start)) == h.schemaId
    ensures GetTotalSize(mem, RiftBufferView(host, start)) == h.totalSize
    ensures GetVersionFlags(mem, RiftBufferView(host, start)) == h.versionFlags
  {
  }

  /** A field written at an aligned address is read back as the value written. */
  lemma FieldReadBack(host: HostOrder, mem: Memory, bufferStart: nat, offset: u32, p: Primitive, v: int)
    requires Modelled(host, p) && InRange(p, v)
    requires bufferStart + offset + Size(p) <= |mem|
    requires mem[bufferStart + offset..bufferStart + offset + Size(p)] == Encode(p, v)
    requires IsAligned(bufferStart + offset, Align(p))
    ensures GetFixedField(host, mem, bufferStart, offset, p) == Ok(v)
  {
    DecodeEncode(p, v);
  }

  /** A bool written by the builder is read back by the bool overload. */
  lemma BoolFieldReadBack(host: HostOrder, mem: Memory, bufferStart: nat, offset: u32, b: bool)
    requires bufferStart + offset < |mem|
    requires mem[bufferStart + offset..bufferStart + offset + 1] == [if b then 1 else 0]
    ensures GetFixedFieldBool(host, mem, bufferStart, offset) == Ok(b)
  {
    assert mem[bufferStart + offset] == mem[bufferStart + offset..bufferStart + offset + 1][0];
  }

  /** The two fields of a table entry are read back as 32-bit fields at offsets 0 and 4. */
  lemma EntryFieldsReadBack(host: HostOrder, mem: Memory, at: nat, e: OffsetTableEntry)
    requires at + EntrySize <= |mem| && IsAligned(at, EntryAlign)
    requires mem[at..at + EntrySize] == EncodeEntry(e)
    ensures GetFixedField(host, mem, at, EntryOffsetOffset as u32, UInt32) == Ok(e.offset as int)
    ensures GetFixedField(host, mem, at, EntrySizeOffset as u32, UInt32) == Ok(e.size as int)
  {
    var enc := EncodeEntry(e);
    assert enc[0..4] == ToLE(e.offset, 4) && enc[4..8] == ToLE(e.size, 4);
    SliceInside(mem, at, enc, 0, 4);
    SliceInside(mem, at, enc, 4, 8);
    Pow256Widths();
    assert (at + 4) % 4 == 0;
    FieldReadBack(host, mem, at, 0, UInt32, e.offset);
    FieldReadBack(host, mem, at, 4, UInt32, e.size);
  }

  /**
    A string the builder wrote, with its terminator, is read back by a string
    view of its count: the copy is the string, it is empty exactly when the
    string is, and the byte after it is the terminator `c_str()` relies on.
   */
  lemma StringReadBack(mem: Memory, at: nat, s: seq<u8>)
    requires at != 0 && |s| < U32Modulus
    requires at + |s| + 1 <= |mem| && mem[at..at + |s| + 1] == s + [0]
    ensures NewStringView(at, |s|) == Ok(RiftStringView(at, |s|))
    ensures ToString(mem, RiftStringView(at, |s|)) == s
    ensures StringEmpty(RiftStringView(at, |s|)) <==> s == []
    ensures mem[CStr(RiftStringView(at, |s|)) + |s|] == 0
  {
    assert mem[at..at + |s|] == mem[at..at + |s| + 1][..|s|];
    assert mem[at + |s|] == mem[at..at + |s| + 1][|s|];
  }

  /** Every element of an array at an address aligned for its type is aligned. */
  lemma ElementAligned(p: Primitive, start: nat, i: nat)
    requires IsAligned(start, Align(p))
    ensures IsAligned(start + i * Size(p), Align(p))
  {
    var n := Size(p);
    DivModUnique(start + i * n, n, start / n + i, 0);
  }

  /**
    Every element of an array the builder wrote at an aligned address is read
    back by an array view of the element count, as long as the array's bytes
    are within the 32-bit range of element offsets.
   */
  lemma ArrayReadBack(host: HostOrder, mem: Memory, start: nat, p: Primitive, es: seq<int>, i: nat, lo: nat)
    requires Modelled(host, p)
    requires forall k :: 0 <= k < |es| ==> InRange(p, es[k])
    requires start != 0 && IsAligned(start, Align(p))
    requires |es| < U32Modulus && |es| * Size(p) <= U32Modulus
    requires start + |es| * Size(p) <= |mem|
    requires mem[start..start + |es| * Size(p)] == EncodeArray(p, es)
    requires i < |es| && lo == i * Size(p)
    ensures NewArrayView(p, start, |es|) == Ok(RiftArrayView(p, start, |es|))
    ensures start + ElementOffset(p, i) + Size(p) <= |mem|
    ensures ArrayAt(host, mem, RiftArrayView(p, start, |es|), i) == Ok(es[i])
  {
    ElementPlacement(p, start, |es|, i);
    ElementLaidOut(mem, start, p, es, i, lo);
    ElementReadBack(host, mem, p, start, |es|, i, lo, es[i]);
  }

  /** Element i of a count-element array is i * Size(p) bytes in, and aligned when the array is. */
  lemma ElementPlacement(p: Primitive, start: nat, count: nat, i: nat)
    requires IsAligned(start, Align(p))
    requires count < U32Modulus && count * Size(p) <= U32Modulus && i < count
    ensures 0 <= i * Size(p) == ElementOffset(p, i)
    ensures i * Size(p) + Size(p) <= count * Size(p)
    ensures IsAligned(start + i * Size(p), Align(p))
  {
    ElementFits(i, count, Size(p));
    ElementOffsetExact(p, i);
    ElementAligned(p, start, i);
  }

  /** The bytes of element i of an encoded array in memory are the element's encoding. */
  lemma ElementLaidOut(mem: Memory, start: nat, p: Primitive, es: seq<int>, i: nat, lo: nat)
    requires forall k :: 0 <= k < |es| ==> InRange(p, es[k])
    requires start + |es| * Size(p) <= |mem|
    requires mem[start..start + |es| * Size(p)] == EncodeArray(p, es)
    requires i < |es| && lo == i * Size(p)
    ensures start + lo + Size(p) <= |mem|
    ensures mem[start + lo..start + lo + Size(p)] == Encode(p, es[i])
  {
    var n := Size(p);
    var enc := EncodeArray(p, es);
    var bytes := Encode(p, es[i]);
    assert lo + n <= |enc| && enc[lo..lo + n] == bytes by {
      EncodeArrayElement(p, es, i, lo);
    }
    ElementBytes(mem, start, enc, lo, n, bytes);
  }

  /** Bytes found within bytes found in memory are found in memory. */
  lemma ElementBytes(mem: Memory, start: nat, enc: seq<u8>, lo: nat, n: nat, bytes: seq<u8>)
    requires start + |enc| <= |mem| && mem[start..start + |enc|] == enc
    requires lo + n <= |enc| && enc[lo..lo + n] == bytes
    ensures start + lo + n <= |mem| && mem[start + lo..start + lo + n] == bytes
  {
    SliceInside(mem, start, enc, lo, lo + n);
  }

  /** An 8-aligned address is aligned for every primitive type. */
  lemma AlignedForAnyPrimitive(x: nat, p: Primitive)
    requires x % HeaderAlign == 0
    ensures IsAligned(x, Align(p))
  {
    var n := Size(p);
    DivModUnique(x, n, (x / 8) * (8 / n), 0);
  }

  /** The first byte after a header at an 8-aligned address is aligned for every primitive type. */
  lemma AlignedAfterHeader(base: nat, p: Primitive)
    requires base % HeaderAlign == 0
    ensures IsAligned(base + HeaderSize, Align(p))
  {
    DivModUnique(base + HeaderSize, HeaderAlign, base / HeaderAlign + 2, 0);
    AlignedForAnyPrimitive(base + HeaderSize, p);
  }

  /** Byte offsets within the object the record client lays out. */
  const LevelOffset: nat := 16
  const TableOffset: nat := 20
  const NameOffset: nat := 28

  /**
    The bytes of the record client's object: its header with the total size
    patched in, the level, the table entry pointing at the name, and the name
    with its terminator.
   */
  ghost predicate RecordLayout(bytes: seq<u8>, h: ObjectHeader, level: int, e: OffsetTableEntry, name: seq<u8>)
    requires InRange(Int32, level)
  {
    |bytes| == NameOffset + |name| + 1
    && DecodeHeader(bytes, 0) == h
    && bytes[LevelOffset..TableOffset] == Encode(Int32, level)
    && bytes[TableOffset..NameOffset] == EncodeEntry(e)
    && bytes[NameOffset..] == name + [0]
  }

  /** The bytes the record client has written when it reserves the entry and adds the name. */
  function LaidOut(h: ObjectHeader, level: int, name: seq<u8>): (r: seq<u8>)
    requires InRange(Int32, level)
    ensures |r| == NameOffset + |name| + 1
    ensures r[..HeaderSize] == EncodeHeader(h)
    ensures r[LevelOffset..TableOffset] == Encode(Int32, level)
    ensures r[NameOffset..] == name + [0]
  {
    var prefix := EncodeHeader(h) + Encode(Int32, level) + EncodeEntry(OffsetTableEntry(0, 0));
    assert |prefix| == NameOffset;
    prefix + (name + [0])
  }

  /** Patching the table entry into the laid-out bytes changes only the entry. */
  lemma LinkedRecord(h: ObjectHeader, level: int, name: seq<u8>, e: OffsetTableEntry)
    requires InRange(Int32, level)
    ensures var linked := Patch(LaidOut(h, level, name), TableOffset, EncodeEntry(e));
            |linked| == NameOffset + |name| + 1
            && linked[..HeaderSize] == EncodeHeader(h)
            && linked[LevelOffset..TableOffset] == Encode(Int32, level)
            && linked[TableOffset..NameOffset] == EncodeEntry(e)
            && linked[NameOffset..] == name + [0]
  {
    var laidOut := LaidOut(h, level, name);
    PatchOutside(laidOut, TableOffset, EncodeEntry(e), 0, HeaderSize);
    PatchOutside(laidOut, TableOffset, EncodeEntry(e), LevelOffset, TableOffset);
    PatchOutside(laidOut, TableOffset, EncodeEntry(e), NameOffset, |laidOut|);
  }

  /**
    Patching the table entry and then the total size into the laid-out bytes
    gives the record layout.
   */
  lemma PatchedRecord(h: ObjectHeader, level: int, name: seq<u8>, e: OffsetTableEntry, total: u32)
    requires InRange(Int32, level)
    ensures var linked := Patch(LaidOut(h, level, name), TableOffset, EncodeEntry(e));
            RecordLayout(Patch(linked, TotalSizeOffset, ToLE(total, 4)), h.(totalSize := total), level, e, name)
  {
    var linked := Patch(LaidOut(h, level, name), TableOffset, EncodeEntry(e));
    LinkedRecord(h, level, name, e);
    FinishedRecord(linked, h, level, name, e, total);
  }

  /** Patching the total size into the header changes only that field. */
  lemma FinishedRecord(linked: seq<u8>, h: ObjectHeader, level: int, name: seq<u8>, e: OffsetTableEntry, total: u32)
    requires InRange(Int32, level)
    requires |linked| == NameOffset + |name| + 1
    requires linked[..HeaderSize] == EncodeHeader(h)
    requires linked[LevelOffset..TableOffset] == Encode(Int32, level)
    requires linked[TableOffset..NameOffset] == EncodeEntry(e)
    requires linked[NameOffset..] == name + [0]
    ensures RecordLayout(Patch(linked, TotalSizeOffset, ToLE(total, 4)), h.(totalSize := total), level, e, name)
  {
    assert linked[0..HeaderSize] == EncodeHeader(h);
    DecodeHeaderAt(linked, 0, h);
    PatchedTotalSize(linked, 0, total);
    PatchOutside(linked, TotalSizeOffset, ToLE(total, 4), LevelOffset, TableOffset);
    PatchOutside(linked, TotalSizeOffset, ToLE(total, 4), TableOffset, NameOffset);
    PatchOutside(linked, TotalSizeOffset, ToLE(total, 4), NameOffset, |linked|);
  }

  /**
    A record object whose schema id, version flags, an int32 level and a
    name are written by the builder, in the order a generated serializer
    writes such a record: header, fixed field, reserved table entry, string,
    table entry update, total size.
   */
  method BuildRecord(host: HostOrder, schemaId: u32, versionFlags: u32, level: int, name: seq<u8>)
    returns (bytes: seq<u8>, total: nat)
    requires InRange(Int32, level)
    requires NameOffset + |name| + 1 <= U32Max
    ensures total == NameOffset + |name| + 1
    ensures RecordLayout(bytes, ObjectHeader(RiftMagicNumber, schemaId, total, versionFlags), level,
                         OffsetTableEntry(NameOffset, |name|), name)
  {
    var h := ObjectHeader(RiftMagicNumber, schemaId, 0, versionFlags);
    var b := new RiftBufferBuilder(host);
    var start, entry, nameOffset := LayOutRecord(b, schemaId, versionFlags, level, name);
    assert b.buffer == LaidOut(h, level, name) by {
      AppendAssoc(EncodeHeader(h) + Encode(Int32, level) + EncodeEntry(OffsetTableEntry(0, 0)), name, [0]);
    }
    var e := OffsetTableEntry(nameOffset, |name|);
    var updated := b.UpdateOffsetTableEntry(entry, nameOffset, |name|);
    ghost var linked := Patch(LaidOut(h, level, name), TableOffset, EncodeEntry(e));
    assert b.buffer == linked;
    var finished := b.EndObject(start);
    bytes := b.GetBufferPtr();
    total := finished.value;
    assert bytes == Patch(linked, TotalSizeOffset, ToLE(total, 4));
    assert h.(totalSize := total) == ObjectHeader(RiftMagicNumber, schemaId, total, versionFlags);
    PatchedRecord(h, level, name, e, total);
  }

  /** Opening the record in a fresh builder and writing its level, blank entry and name. */
  method LayOutRecord(b: RiftBufferBuilder, schemaId: u32, versionFlags: u32, level: int, name: seq<u8>)
    returns (start: nat, entry: nat, nameOffset: u32)
    requires b.Valid() && b.buffer == [] && InRange(Int32, level)
    modifies b
    ensures b.Valid() && start == 0 && entry == TableOffset && nameOffset == NameOffset
    ensures b.buffer == EncodeHeader(ObjectHeader(RiftMagicNumber, schemaId, 0, versionFlags)) + Encode(Int32, level)
                        + EncodeEntry(OffsetTableEntry(0, 0)) + name + [0]
  {
    ghost var front := EncodeHeader(ObjectHeader(RiftMagicNumber, schemaId, 0, versionFlags)) + Encode(Int32, level);
    ghost var blank := EncodeEntry(OffsetTableEntry(0, 0));
    start := OpenRecord(b, schemaId, versionFlags, level);
    entry := b.ReserveOffsetTableEntry();
    assert b.buffer == front + blank && b.cursor == NameOffset by {
      assert front + [] + blank == front + blank;
    }
    assert NameOffset % U32Modulus == NameOffset;
    nameOffset := b.AddString(name);
  }

  /** Opening the record in a fresh builder and writing its level. */
  method OpenRecord(b: RiftBufferBuilder, schemaId: u32, versionFlags: u32, level: int) returns (start: nat)
    requires b.Valid() && b.buffer == [] && InRange(Int32, level)
    modifies b
    ensures b.Valid() && start == 0 && b.cursor == TableOffset && Padding(TableOffset, EntryAlign) == 0
    ensures b.buffer == EncodeHeader(ObjectHeader(RiftMagicNumber, schemaId, 0, versionFlags)) + Encode(Int32, level)
  {
    start := OpenObject(b, schemaId, versionFlags);
    b.WriteValue(Int32, level);
  }

  /** The record's bytes, once the finished buffer is placed at address base. */
  ghost predicate PlacedRecord(mem: Memory, base: nat, h: ObjectHeader, level: int, e: OffsetTableEntry, name: seq<u8>)
    requires InRange(Int32, level)
  {
    base + NameOffset + |name| + 1 <= |mem|
    && DecodeHeader(mem, base) == h
    && mem[base + LevelOffset..base + TableOffset] == Encode(Int32, level)
    && mem[base + TableOffset..base + NameOffset] == EncodeEntry(e)
    && mem[base + NameOffset..base + NameOffset + |name| + 1] == name + [0]
  }

  /** Placing the buffer at base moves every part of the record by base. */
  lemma PlaceRecord(base: nat, bytes: seq<u8>, h: ObjectHeader, level: int, e: OffsetTableEntry, name: seq<u8>)
    requires InRange(Int32, level)
    requires RecordLayout(bytes, h, level, e, name)
    ensures PlacedRecord(Zeros(base) + bytes, base, h, level, e, name)
  {
    var mem := Zeros(base) + bytes;
    DecodeHeaderShift(Zeros(base), bytes, 0);
    assert mem[base + LevelOffset..base + TableOffset] == bytes[LevelOffset..TableOffset];
    assert mem[base + TableOffset..base + NameOffset] == bytes[TableOffset..NameOffset];
    assert mem[base + NameOffset..base + NameOffset + |name| + 1] == bytes[NameOffset..];
  }

  /** The level is within the object, and is read back at its offset. */
  lemma RecordLevelReads(host: HostOrder, mem: Memory, base: nat, h: ObjectHeader, level: int, e: OffsetTableEntry, name: seq<u8>)
    requires InRange(Int32, level) && base % HeaderAlign == 0
    requires PlacedRecord(mem, base, h, level, e, name) && h.totalSize >= TableOffset
    ensures GetPtrAtOffset(mem, RiftBufferView(host, base), LevelOffset, Size(Int32)) == Ok(base + LevelOffset)
    ensures GetFixedField(host, mem, base, LevelOffset, Int32) == Ok(level)
  {
    AlignedAfterHeader(base, Int32);
    FieldReadBack(host, mem, base, LevelOffset, Int32, level);
  }

  /** The table entry is found, and its fields are read back. */
  lemma RecordEntryReads(host: HostOrder, mem: Memory, base: nat, h: ObjectHeader, level: int, name: seq<u8>)
    requires InRange(Int32, level) && base != 0 && base % HeaderAlign == 0 && |name| < U32Modulus
    requires PlacedRecord(mem, base, h, level, OffsetTableEntry(NameOffset, |name|), name)
    ensures GetOffsetTableEntry(base, TableOffset, 0, 1) == Ok(base + TableOffset)
    ensures GetFixedField(host, mem, base + TableOffset, EntryOffsetOffset as u32, UInt32) == Ok(NameOffset)
    ensures GetFixedField(host, mem, base + TableOffset, EntrySizeOffset as u32, UInt32) == Ok(|name|)
  {
    TableAligned(base);
    EntryFieldsReadBack(host, mem, base + TableOffset, OffsetTableEntry(NameOffset, |name|));
  }

  /** The table of a record at an 8-aligned base is 4-aligned. */
  lemma TableAligned(base: nat)
    requires base % HeaderAlign == 0
    ensures IsAligned(base + TableOffset, EntryAlign)
  {
    var q := base / HeaderAlign;
    assert base == HeaderAlign * q;
    DivModUnique(base + TableOffset, EntryAlign, 2 * q + 5, 0);
  }

  /** The name is read back by a string view at its offset. */
  lemma RecordStringReads(mem: Memory, base: nat, h: ObjectHeader, level: int, e: OffsetTableEntry, name: seq<u8>)
    requires InRange(Int32, level) && base != 0 && |name| < U32Modulus
    requires PlacedRecord(mem, base, h, level, e, name)
    ensures NewStringView(base + NameOffset, |name|) == Ok(RiftStringView(base + NameOffset, |name|))
    ensures ToString(mem, RiftStringView(base + NameOffset, |name|)) == name
  {
    StringReadBack(mem, base + NameOffset, name);
  }

  /** Opens the view on a placed record and reads its header fields. */
  method ReadHeader(host: HostOrder, mem: Memory, base: nat, h: ObjectHeader)
    returns (view: RiftBufferView, schemaRead: u32, flagsRead: u32, totalRead: u32)
    requires base != 0 && base + HeaderSize <= |mem| && DecodeHeader(mem, base) == h
    requires h.magic == RiftMagicNumber && h.totalSize >= HeaderSize
    ensures view == RiftBufferView(host, base)
    ensures schemaRead == h.schemaId && flagsRead == h.versionFlags && totalRead == h.totalSize
  {
    ViewOfHeader(host, mem, base, h);
    view := NewView(host, mem, base).value;
    schemaRead := GetSchemaId(mem, view);
    flagsRead := GetVersionFlags(mem, view);
    totalRead := GetTotalSize(mem, view);
  }

  /**
    Reads the level, at the offset the view checks against the object's size.
    The bounds check is the accessor's as written; for this offset and
    size its sum cannot wrap, so it agrees with the intended check.
   */
  method ReadLevel(mem: Memory, view: RiftBufferView, h: ObjectHeader, level: int, e: OffsetTableEntry, name: seq<u8>)
    returns (levelRead: int)
    requires view.start != 0 && view.start % HeaderAlign == 0
    requires InRange(Int32, level) && h.totalSize >= TableOffset
    requires PlacedRecord(mem, view.start, h, level, e, name)
    ensures levelRead == level
  {
    var base := view.start;
    RecordLevelReads(view.host, mem, base, h, level, e, name);
    PtrChecksAgreeWithoutWrap(mem, view, LevelOffset, Size(Int32));
    var levelAt := GetPtrAtOffsetAsWritten(mem, view, LevelOffset, Size(Int32)).value;
    assert levelAt - base == LevelOffset;
    levelRead := GetFixedField(view.host, mem, base, levelAt - base, Int32).value;
  }

  /** Reads the name through the offset table entry and a string view. */
  method ReadName(host: HostOrder, mem: Memory, base: nat, h: ObjectHeader, level: int, name: seq<u8>)
    returns (nameRead: seq<u8>)
    requires base != 0 && base % HeaderAlign == 0
    requires InRange(Int32, level) && |name| < U32Modulus
    requires PlacedRecord(mem, base, h, level, OffsetTableEntry(NameOffset, |name|), name)
    ensures nameRead == name
  {
    RecordEntryReads(host, mem, base, h, level, name);
    var entryAt := GetOffsetTableEntry(base, TableOffset, 0, 1).value;
    var nameOffset := GetFixedField(host, mem, entryAt, EntryOffsetOffset as u32, UInt32).value;
    var nameLength := GetFixedField(host, mem, entryAt, EntrySizeOffset as u32, UInt32).value;
    assert nameOffset == NameOffset && nameLength == |name|;
    RecordStringReads(mem, base, h, level, OffsetTableEntry(NameOffset, |name|), name);
    var sv := NewStringView(base + nameOffset, nameLength).value;
    nameRead := ToString(mem, sv);
  }

  /**
    The record client: builds the record, places the finished buffer at a
    non-null 8-aligned address, and reads it back; every value read is the
    value written.
   */
  method BuildAndReadRecord(host: HostOrder, base: nat, schemaId: u32, versionFlags: u32, level: int, name: seq<u8>)
    returns (schemaRead: u32, flagsRead: u32, totalRead: u32, levelRead: int, nameRead: seq<u8>)
    requires base != 0 && base % HeaderAlign == 0
    requires InRange(Int32, level)
    requires NameOffset + |name| + 1 <= U32Max
    ensures schemaRead == schemaId && flagsRead == versionFlags
    ensures totalRead == NameOffset + |name| + 1
    ensures levelRead == level && nameRead == name
  {
    var bytes, total := BuildRecord(host, schemaId, versionFlags, level, name);
    var h := ObjectHeader(RiftMagicNumber, schemaId, total, versionFlags);
    PlaceRecord(base, bytes, h, level, OffsetTableEntry(NameOffset, |name|), name);
    var mem := Zeros(base) + bytes;
    var view;
    view, schemaRead, flagsRead, totalRead := ReadHeader(host, mem, base, h);
    levelRead := ReadLevel(mem, view, h, level, OffsetTableEntry(NameOffset, |name|), name);
    nameRead := ReadName(host, mem, base, h, level, name);
  }

  /** Opening an object in a fresh builder and adding one array puts the array right after the header. */
  method LayOutArrayObject(b: RiftBufferBuilder, schemaId: u32, versionFlags: u32, p: Primitive, es: seq<int>)
    returns (start: nat, offset: u32)
    requires b.Valid() && b.buffer == [] && Modelled(b.host, p)
    requires forall k :: 0 <= k < |es| ==> InRange(p, es[k])
    modifies b
    ensures b.Valid() && start == 0 && offset == HeaderSize
    ensures b.buffer == EncodeHeader(ObjectHeader(RiftMagicNumber, schemaId, 0, versionFlags)) + EncodeArray(p, es)
  {
    ghost var header := EncodeHeader(ObjectHeader(RiftMagicNumber, schemaId, 0, versionFlags));
    start := OpenObject(b, schemaId, versionFlags);
    PaddingAfterHeader(p);
    assert (HeaderSize + 0) % U32Modulus == HeaderSize;
    offset := b.AddArray(p, es);
    assert header + [] + EncodeArray(p, es) == header + EncodeArray(p, es);
  }

  /** Nothing pads the first byte after a header, whatever the element type. */
  lemma PaddingAfterHeader(p: Primitive)
    ensures Padding(HeaderSize, Align(p)) == 0
  {
    AlignedForAnyPrimitive(HeaderSize, p);
  }

  /** Opening an object in a fresh builder writes its header at offset 0. */
  method OpenObject(b: RiftBufferBuilder, schemaId: u32, versionFlags: u32) returns (start: nat)
    requires b.Valid() && b.buffer == []
    modifies b
    ensures b.Valid() && start == 0 && b.cursor == HeaderSize
    ensures b.buffer == EncodeHeader(ObjectHeader(RiftMagicNumber, schemaId, 0, versionFlags))
  {
    start := b.BeginObject(schemaId, versionFlags);
    assert start == 0 && Zeros(0) == [];
    assert [] + [] + EncodeHeader(ObjectHeader(RiftMagicNumber, schemaId, 0, versionFlags))
           == EncodeHeader(ObjectHeader(RiftMagicNumber, schemaId, 0, versionFlags));
  }

  /**
    An object holding one array of primitives: a header, then the array at
    the first offset aligned for its element type, then the total size.
   */
  method BuildArray(host: HostOrder, schemaId: u32, versionFlags: u32, p: Primitive, es: seq<int>)
    returns (bytes: seq<u8>, offset: u32)
    requires Modelled(host, p)
    requires forall k :: 0 <= k < |es| ==> InRange(p, es[k])
    requires HeaderSize + |es| * Size(p) <= U32Max
    ensures offset == HeaderSize && |bytes| == HeaderSize + |es| * Size(p)
    ensures DecodeHeader(bytes, 0) == ObjectHeader(RiftMagicNumber, schemaId, |bytes|, versionFlags)
    ensures bytes[HeaderSize..] == EncodeArray(p, es)
  {
    var b := new RiftBufferBuilder(host);
    var start;
    start, offset := LayOutArrayObject(b, schemaId, versionFlags, p, es);
    ghost var laidOut := b.buffer;
    var finished := b.EndObject(start);
    assert finished.Ok? && finished.value == |laidOut|;
    bytes := b.GetBufferPtr();
    FinishedObject(ObjectHeader(RiftMagicNumber, schemaId, 0, versionFlags), EncodeArray(p, es), |laidOut|);
  }

  /** Patching the total size into a header followed by data changes only that field. */
  lemma FinishedObject(h: ObjectHeader, data: seq<u8>, total: u32)
    ensures var finished := Patch(EncodeHeader(h) + data, TotalSizeOffset, ToLE(total, 4));
            |finished| == HeaderSize + |data|
            && DecodeHeader(finished, 0) == h.(totalSize := total)
            && finished[HeaderSize..] == data
  {
    var laidOut := EncodeHeader(h) + data;
    assert laidOut[0..HeaderSize] == EncodeHeader(h);
    DecodeHeaderAt(laidOut, 0, h);
    PatchedTotalSize(laidOut, 0, total);
    PatchOutside(laidOut, TotalSizeOffset, ToLE(total, 4), HeaderSize, |laidOut|);
  }

  /**
    Reads every element of an array of count elements at an address aligned
    for its type, through an array view; the elements read are the ones the
    builder encoded there.
   */
  method ReadArray(host: HostOrder, mem: Memory, at: nat, p: Primitive, es: seq<int>)
    returns (read: seq<int>)
    requires Modelled(host, p)
    requires forall k :: 0 <= k < |es| ==> InRange(p, es[k])
    requires at != 0 && IsAligned(at, Align(p))
    requires |es| < U32Modulus && |es| * Size(p) <= U32Modulus
    requires at + |es| * Size(p) <= |mem| && mem[at..at + |es| * Size(p)] == EncodeArray(p, es)
    ensures read == es
  {
    var av := NewArrayView(p, at, |es|).value;
    read := [];
    var i: u32 := 0;
    while i < ArraySize(av)
      invariant i <= |es| && read == es[..i]
    {
      ArrayReadBack(host, mem, at, p, es, i, i as nat * Size(p));
      var element := ArrayAt(host, mem, av, i).value;
      assert es[..i + 1] == es[..i] + [element];
      read := read + [element];
      i := i + 1;
    }
  }

  /**
    The array client: builds an object holding an array of primitives, places
    the buffer at a non-null 8-aligned address, opens a view on it, reads its
    header, and reads the array back element by element.
   */
  method BuildAndReadArray(host: HostOrder, base: nat, schemaId: u32, versionFlags: u32, p: Primitive, es: seq<int>)
    returns (schemaRead: u32, flagsRead: u32, totalRead: u32, read: seq<int>)
    requires base != 0 && base % HeaderAlign == 0
    requires Modelled(host, p)
    requires forall k :: 0 <= k < |es| ==> InRange(p, es[k])
    requires HeaderSize + |es| * Size(p) <= U32Max
    ensures schemaRead == schemaId && flagsRead == versionFlags
    ensures totalRead == HeaderSize + |es| * Size(p)
    ensures read == es
  {
    var bytes, offset := BuildArray(host, schemaId, versionFlags, p, es);
    var mem := Zeros(base) + bytes;
    DecodeHeaderShift(Zeros(base), bytes, 0);
    var view;
    view, schemaRead, flagsRead, totalRead :=
      ReadHeader(host, mem, base, ObjectHeader(RiftMagicNumber, schemaId, |bytes|, versionFlags));
    var at := base + offset;
    ArrayInMemory(base, bytes, EncodeArray(p, es));
    AlignedAfterHeader(base, p);
    ArrayFitsOffsets(|es|, Size(p));
    read := ReadArray(host, mem, at, p, es);
  }

  /** Data found after the header of an object placed at base is found at base + HeaderSize. */
  lemma ArrayInMemory(base: nat, bytes: seq<u8>, data: seq<u8>)
    requires |bytes| == HeaderSize + |data| && bytes[HeaderSize..] == data
    ensures (Zeros(base) + bytes)[base + HeaderSize..base + HeaderSize + |data|] == data
  {
  }

  /** An object of 32-bit size holds fewer than 2^32 elements, in fewer than 2^32 bytes. */
  lemma ArrayFitsOffsets(count: nat, n: nat)
    requires n >= 1 && HeaderSize + count * n <= U32Max
    ensures count < U32Modulus && count * n <= U32Modulus
  {
    if count > 0 { MulAtLeast(count, n); }
  }
}
