/**
  The two wire structures of the format: the 16-byte object header and the
  8-byte offset-table entry, each a run of little-endian 32-bit fields.
 */
module Types {
  import opened Bytes

  /** `RIFT_MAGIC_NUMBER`: 'RFS1' read as a little-endian 32-bit value. */
  const RiftMagicNumber: u32 := 0x31534652

  /** sizeof and alignof of `RiftObjectHeader`, and the byte offset of each field. */
  const HeaderSize: nat := 16
  const HeaderAlign: nat := 8
  const MagicOffset: nat := 0
  const SchemaIdOffset: nat := 4
  const TotalSizeOffset: nat := 8
  const VersionFlagsOffset: nat := 12

  /** sizeof and alignof of `OffsetTableEntry`, and the byte offset of each field. */
  const EntrySize: nat := 8
  const EntryAlign: nat := 4
  const EntryOffsetOffset: nat := 0
  const EntrySizeOffset: nat := 4

  datatype ObjectHeader = ObjectHeader(magic: u32, schemaId: u32, totalSize: u32, versionFlags: u32)

  datatype OffsetTableEntry = OffsetTableEntry(offset: u32, size: u32)

  /** The little-endian 32-bit field at byte offset at. */
  function U32At(bs: seq<u8>, at: nat): (r: u32)
    requires at + 4 <= |bs|
  {
    Pow256Widths();
    FromLE(bs[at..at + 4])
  }

  /** The 16 bytes of a header: magic, schema_id, total_size, version_flags. */
  function EncodeHeader(h: ObjectHeader): (r: seq<u8>)
    ensures |r| == HeaderSize
  {
    ToLE(h.magic, 4) + ToLE(h.schemaId, 4) + ToLE(h.totalSize, 4) + ToLE(h.versionFlags, 4)
  }

  /** The header whose bytes start at at. */
  function DecodeHeader(bs: seq<u8>, at: nat): (h: ObjectHeader)
    requires at + HeaderSize <= |bs|
  {
    ObjectHeader(U32At(bs, at + MagicOffset), U32At(bs, at + SchemaIdOffset),
                 U32At(bs, at + TotalSizeOffset), U32At(bs, at + VersionFlagsOffset))
  }

  /** The 8 bytes of an entry: offset, then size. */
  function EncodeEntry(e: OffsetTableEntry): (r: seq<u8>)
    ensures |r| == EntrySize
  {
    ToLE(e.offset, 4) + ToLE(e.size, 4)
  }

  /** The entry whose bytes start at at. */
  function DecodeEntry(bs: seq<u8>, at: nat): (e: OffsetTableEntry)
    requires at + EntrySize <= |bs|
  {
    OffsetTableEntry(U32At(bs, at + EntryOffsetOffset), U32At(bs, at + EntrySizeOffset))
  }

  /** The magic number's bytes, in order, are the characters 'R', 'F', 'S', '1'. */
  lemma MagicSpellsRFS1()
    ensures ToLE(RiftMagicNumber, 4) == ['R' as u8, 'F' as u8, 'S' as u8, '1' as u8]
  {
  }

  /** Decoding an encoded header at any position recovers every field. */
  lemma {:induction false} DecodeEncodeHeader(h: ObjectHeader, prefix: seq<u8>, suffix: seq<u8>)
    ensures DecodeHeader(prefix + EncodeHeader(h) + suffix, |prefix|) == h
  {
    var bs := prefix + EncodeHeader(h) + suffix;
    var p := |prefix|;
    Pow256Widths();
    assert bs[p..p + 4] == ToLE(h.magic, 4);
    assert bs[p + 4..p + 8] == ToLE(h.schemaId, 4);
    assert bs[p + 8..p + 12] == ToLE(h.totalSize, 4);
    assert bs[p + 12..p + 16] == ToLE(h.versionFlags, 4);
    FromToLE(h.magic, 4);
    FromToLE(h.schemaId, 4);
    FromToLE(h.totalSize, 4);
    FromToLE(h.versionFlags, 4);
  }

  /** Wherever a header's 16 bytes are found, they decode to it. */
  lemma DecodeHeaderAt(bs: seq<u8>, at: nat, h: ObjectHeader)
    requires at + HeaderSize <= |bs| && bs[at..at + HeaderSize] == EncodeHeader(h)
    ensures DecodeHeader(bs, at) == h
  {
    assert bs == bs[..at] + EncodeHeader(h) + bs[at + HeaderSize..];
    DecodeEncodeHeader(h, bs[..at], bs[at + HeaderSize..]);
  }

  /** Bytes in front of a buffer move its header without changing it. */
  lemma DecodeHeaderShift(prefix: seq<u8>, bs: seq<u8>, at: nat)
    requires at + HeaderSize <= |bs|
    ensures DecodeHeader(prefix + bs, |prefix| + at) == DecodeHeader(bs, at)
  {
    var p := |prefix|;
    assert (prefix + bs)[p + at..p + at + 4] == bs[at..at + 4];
    assert (prefix + bs)[p + at + 4..p + at + 8] == bs[at + 4..at + 8];
    assert (prefix + bs)[p + at + 8..p + at + 12] == bs[at + 8..at + 12];
    assert (prefix + bs)[p + at + 12..p + at + 16] == bs[at + 12..at + 16];
  }

  /** Every 16 bytes are the encoding of the header they decode to. */
  lemma {:induction false} EncodeDecodeHeader(bs: seq<u8>)
    requires |bs| == HeaderSize
    ensures EncodeHeader(DecodeHeader(bs, 0)) == bs
  {
    ToFromLE(bs[0..4]);
    ToFromLE(bs[4..8]);
    ToFromLE(bs[8..12]);
    ToFromLE(bs[12..16]);
    assert bs == bs[0..4] + bs[4..8] + bs[8..12] + bs[12..16];
  }

  /** Decoding an encoded entry at any position recovers both fields. */
  lemma {:induction false} DecodeEncodeEntry(e: OffsetTableEntry, prefix: seq<u8>, suffix: seq<u8>)
    ensures DecodeEntry(prefix + EncodeEntry(e) + suffix, |prefix|) == e
  {
    var bs := prefix + EncodeEntry(e) + suffix;
    var p := |prefix|;
    Pow256Widths();
    assert bs[p..p + 4] == ToLE(e.offset, 4);
    assert bs[p + 4..p + 8] == ToLE(e.size, 4);
    FromToLE(e.offset, 4);
    FromToLE(e.size, 4);
  }

  /** Wherever an entry's 8 bytes are found, they decode to it. */
  lemma DecodeEntryAt(bs: seq<u8>, at: nat, e: OffsetTableEntry)
    requires at + EntrySize <= |bs| && bs[at..at + EntrySize] == EncodeEntry(e)
    ensures DecodeEntry(bs, at) == e
  {
    assert bs == bs[..at] + EncodeEntry(e) + bs[at + EntrySize..];
    DecodeEncodeEntry(e, bs[..at], bs[at + EntrySize..]);
  }

  /** Every 8 bytes are the encoding of the entry they decode to. */
  lemma {:induction false} EncodeDecodeEntry(bs: seq<u8>)
    requires |bs| == EntrySize
    ensures EncodeEntry(DecodeEntry(bs, 0)) == bs
  {
    ToFromLE(bs[0..4]);
    ToFromLE(bs[4..8]);
    assert bs == bs[0..4] + bs[4..8];
  }

  /** The value-initialised entry `OffsetTableEntry{}` is eight zero bytes. */
  lemma BlankEntryIsZeros()
    ensures EncodeEntry(OffsetTableEntry(0, 0)) == Zeros(EntrySize)
  {
  }
}
