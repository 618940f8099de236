# RiftSerializer byte-format engine in Dafny

RiftSerializer is a zero-copy binary serialization format for C++. An object
in a RiftSerializer buffer is a 16-byte header followed by the object's data:

- the header holds the magic number `RFS1`, a schema id, the object's total
  size and version flags;
- then come fixed-size fields;
- then an offset table of 8-byte entries, each an (offset, size) pair that
  locates the object's variable-size data;
- then the variable-size data itself: strings with a terminating zero byte,
  and arrays of primitives.

Every multi-byte field is stored little-endian, whatever the host's byte
order.

This project models the runtime core of the library:

- `bytes.dfy` (`Bytes`): the little-endian digit codec that every multi-byte
  field uses. Also the zero fill and the in-place overwrite (`memcpy` into
  bytes already written).
- `common.dfy` (`Common`), from `Common.h`:
  - `swap_bytes`, and `to_little_endian`/`from_little_endian` with the host
    byte order as a parameter;
  - `align_up` as its mask expression on a 64-bit `size_t`, with the wrap;
  - `is_aligned`;
  - one `Failure` constructor per `RIFT_ASSERT` site of the core.
- `types.dfy` (`Types`), from `Types.h`: the magic number, the header and
  offset-table entry layouts, and their 16-byte and 8-byte encodings.
- `traits.dfy` (`Traits`), from `Traits.h`:
  - type tags;
  - `is_rift_pod`, `is_rift_fixed_size` and `is_rift_variable_size`;
  - `check_type_concepts`;
  - the POD declaration macro and its two static assertions.
- `scalars.dfy` (`Scalars`): the size, alignment and little-endian bytes of
  the eleven primitive types, and of a run of them.
- `builder.dfy` (`Builder`), from `Builder.h`: the class
  `RiftBufferBuilder`.
  - It has a `buffer` field (the bytes below the write head) and a `cursor`
    field (`m_current_offset`).
  - The invariant `Valid()` says the buffer holds exactly the bytes below the
    cursor.
  - Every method states exactly which bytes it appends, or which bytes it
    overwrites in place.
- `accessor.dfy` (`Accessor`), from `Accessor.h`: the zero-copy views as
  functions over memory, which is a byte sequence indexed by address.
  - A pointer is an address, and address 0 is null.
  - An assertion that fails yields a `Fail` result.
  - A memory read that the code does without a check is a precondition.
- `roundtrip.dfy` (`RoundTrip`): the builder and the accessors together.
  - Each accessor reads back the value the builder wrote.
  - Two complete clients are proved end to end:
    - a record with a fixed int32 field and a string reached through the
      offset table;
    - an object holding an array of primitives.
  - Each client builds the object with the builder's methods, places the
    finished buffer at an 8-aligned address, and reads every value back.

No build of the library performs the `RIFT_ASSERT` checks:

- in a release build the macro expands to nothing
  (include/Common/Common.h:99-101);
- with `RIFT_SERIALIZER_DEBUG` defined the headers do not compile. `is_aligned`
  takes a `const void*` (include/Common/Common.h:85), and five call sites pass
  it an integer: include/Builder/Builder.h:169 and
  include/Accessor/Accessor.h:88, 99, 182 and 229. Three of them are in
  non-template functions, so the error is unconditional.

Each `Failure` result of the model states the check its assertion evidently
intends. The host byte order is an explicit `HostOrder` parameter.

Some behaviours of the code that the model keeps:

- The view constructor checks, in order, for a null pointer, the magic
  number and a total size below 16. It does not check the header's
  alignment; a comment at include/Accessor/Accessor.h:42 assumes it
  (`Accessor.NewView`).
- `BeginObject` returns the header's own offset, not the offset after it as
  its comment at include/Builder/Builder.h:113 says; it writes the schema id
  at once, and `EndObject` patches only total_size, unlike the comment at
  include/Builder/Builder.h:114-115 (`Builder.RiftBufferBuilder.BeginObject`,
  `Builder.RiftBufferBuilder.EndObject`).
- `AddArray` of an empty array still pads, and returns the padded cursor
  (`Builder.RiftBufferBuilder.AddArray`).
- `UpdateOffsetTableEntry` accepts an entry that ends exactly at the cursor:
  the check is `entry + 8 <= cursor`.
- In `operator[]`, the branch that copies a non-POD element can never be
  taken, because fixed-size is exactly POD (`Traits.FixedSizeIsPod`).
- With a 64-bit `size_t`, the fifth check of `GetOffsetTableEntry` (index × 8 < count × 8) follows
  from the third (index < count) and can never fail.
- `UpdateOffsetTableEntry` calls `is_aligned` with a buffer offset. The model
  reads it as the remainder of that integer.
- Two bounds checks of the builder compute in 64-bit `size_t` and can wrap;
  the model uses the intended checks and exhibits the wrap (see
  "## Findings").

## Model

| member | source | states |
|---|---|---|
| Bytes.FromToLE | include/Types/Types.h:15-20 | decoding the n little-endian bytes of a value that fits in n bytes gives the value back |
| Bytes.ToFromLE | include/Types/Types.h:15-20 | re-encoding the value of any byte sequence at its own width gives the sequence back |
| Bytes.FromLEInjective | include/Types/Types.h:15-20 | two byte sequences of one width with equal little-endian values are equal |
| Bytes.Reverse | include/Common/Common.h:38-58 | the byte-swap intrinsics: the result has the same length and element i is element n-1-i |
| Bytes.ReverseReverse | include/Common/Common.h:38-58 | reversing twice restores the bytes |
| Bytes.Zeros | include/Builder/Builder.h:105 | the `memset` fill: n bytes, every one zero |
| Bytes.Patch | include/Builder/Builder.h:143-144 | the in-place `memcpy`: the same length, `data` at `at..at+|data|`, and every other byte unchanged |
| Bytes.PatchOutside | include/Builder/Builder.h:177 | a patch leaves every slice that lies wholly before or after it unchanged |
| Common.SwapBytes | include/Common/Common.h:38-58 | for 2, 4 and 8 bytes, the result fits the width and its little-endian bytes are the argument's in reverse order |
| Common.SwapBytesInvolutive | include/Common/Common.h:38-58 | swapping twice is the identity |
| Common.SwapBytes16 | include/Common/Common.h:38-44 | an independent statement of the 16-bit swap: low and high byte exchange places |
| Common.HostLoadImage | include/Common/Common.h:60-68 | the value a host loads from the image it stores is the value, on either byte order |
| Common.ToLittleEndian | include/Common/Common.h:60-68 | `to_little_endian` stays within the width; what it does on each host is stated by the three lemmas below |
| Common.FromLittleEndian | include/Common/Common.h:70-73 | `from_little_endian` is the same operation and stays within the width |
| Common.LittleEndianHostIdentity | include/Common/Common.h:60-68 | on a little-endian host both conversions return their argument |
| Common.SingleByteUnchanged | include/Common/Common.h:62-67 | a one-byte value is unchanged on either host, as no branch handles size 1 |
| Common.BigEndianHostSwaps | include/Common/Common.h:62-65 | on a big-endian host 2-, 4- and 8-byte values are byte-swapped |
| Common.EndianRoundTrip | include/Common/Common.h:60-73 | `from_little_endian(to_little_endian(v)) == v` on either host |
| Common.StoredIsLittleEndian | include/Common/Common.h:60-68 | the memory image of `to_little_endian(v)` is v's little-endian bytes, whatever the host order |
| Common.LoadedIsLittleEndian | include/Common/Common.h:70-73 | `from_little_endian` of what a host loads from bytes is their little-endian value, whatever the host order |
| Common.BitAnd | include/Common/Common.h:82-84 | bitwise `&` on naturals is at most either operand |
| Common.BitNot | include/Common/Common.h:82-84 | `~` on 64-bit `size_t`: the result fits and x + ~x = 2^64 - 1 |
| Common.AlignUp | include/Common/Common.h:82-84 | `align_up` computed with 64-bit wrap-around stays below 2^64 |
| Common.BitAndClearsLowBits | include/Common/Common.h:82-84 | masking with 2^n - 2^k rounds down to a multiple of 2^k |
| Common.AlignUpNoWrap | include/Common/Common.h:82-84 | when the sum does not wrap, `align_up` is the sum masked with the complement of alignment - 1 |
| Common.AlignUpValue | include/Common/Common.h:82-84 | for a power-of-two alignment, `align_up` is offset + a - 1 rounded down to a multiple of a |
| Common.AlignUpBounds | include/Common/Common.h:82-84 | for a power-of-two alignment, `align_up(o, a)` is a multiple of a with o <= result < o + a |
| Common.AlignUpIsLeastMultiple | include/Common/Common.h:82-84 | `align_up(o, a)` is the only multiple of a in o..o+a-1 |
| Common.IsAligned | include/Common/Common.h:85-87 | `is_aligned` as the remainder of the address; its link to `align_up` is stated by `Common.AlignUpFixedIffAligned` |
| Common.AlignUpFixedIffAligned | include/Common/Common.h:82-87 | `align_up(o, a) == o` exactly when `is_aligned(o, a)` |
| Common.AlignUpIdempotent | include/Common/Common.h:82-84 | aligning twice is aligning once, for every 64-bit offset, including those whose sum wraps to 0 |
| Common.AlignUpWraps | include/Common/Common.h:82-84 | the 64-bit wrap: aligning 2^64 - 1 to 8 gives 0 |
| Common.SmallPowerOfTwo | include/Common/Common.h:82-84 | a power of two below 2^64 is 2^k with k <= 64 |
| Types.DecodeHeader | include/Types/Types.h:15-21 | the four little-endian 32-bit fields at offsets 0, 4, 8 and 12; inverse of `Types.EncodeHeader` by the lemmas below |
| Types.DecodeEntry | include/Types/Types.h:28-32 | the two little-endian 32-bit fields at offsets 0 and 4; inverse of `Types.EncodeEntry` by the lemmas below |
| Types.EncodeHeader | include/Types/Types.h:15-21 | a header encodes to exactly 16 bytes |
| Types.EncodeEntry | include/Types/Types.h:28-32 | an offset-table entry encodes to exactly 8 bytes |
| Types.MagicSpellsRFS1 | include/Types/Types.h:8-10 | the magic number's little-endian bytes are 'R', 'F', 'S', '1' |
| Types.DecodeEncodeHeader | include/Types/Types.h:15-21 | the 16 encoded bytes decode, at any position, to the same four fields at offsets 0, 4, 8 and 12 |
| Types.DecodeHeaderAt | include/Types/Types.h:15-21 | wherever a header's 16 bytes are found, they decode to that header |
| Types.DecodeHeaderShift | include/Types/Types.h:15-21 | bytes in front of a header do not change what it decodes to |
| Types.EncodeDecodeHeader | include/Types/Types.h:15-21 | every 16 bytes are the encoding of the header they decode to |
| Types.DecodeEncodeEntry | include/Types/Types.h:28-32 | an encoded entry decodes, at any position, to its offset (bytes 0-3) and size (bytes 4-7) |
| Types.DecodeEntryAt | include/Types/Types.h:28-32 | wherever an entry's 8 bytes are found, they decode to that entry |
| Types.EncodeDecodeEntry | include/Types/Types.h:28-32 | every 8 bytes are the encoding of the entry they decode to |
| Types.BlankEntryIsZeros | include/Builder/Builder.h:160-161 | the value-initialised entry is 8 zero bytes |
| Traits.RemoveCv | include/Traits/Traits.h:40 | `std::remove_cv_t` yields a type without top-level qualifiers |
| Traits.DeclareRiftPod | include/Traits/Traits.h:44-51 | the declaration compiles exactly when the type is not already specialised (a primitive or declared before), is standard-layout and is trivially copyable, and then adds it to the registry; otherwise it reports exactly the failures: the redefinition and each failing assertion |
| Traits.RedeclarationFails | include/Traits/Traits.h:44-46 | declaring the same type a second time fails with the redefinition alone |
| Traits.DeclareDistinctTypes | include/Traits/Traits.h:44-51 | declaring distinct new types that pass both assertions, one after another, compiles and registers exactly those types |
| Traits.IsRiftPod | include/Traits/Traits.h:39-40 | `is_rift_pod<T>`: the POD specialisation of the unqualified type; its classes are stated by the lemmas below |
| Traits.IsRiftFixedSize | include/Traits/Traits.h:65-66 | `is_rift_fixed_size<T>`; shown equal to POD by `Traits.FixedSizeIsPod` |
| Traits.IsRiftVariableSize | include/Traits/Traits.h:71-83 | `is_rift_variable_size<T>`; characterised by `Traits.VariableSizeExactly` |
| Traits.CheckTypeConcepts | include/Traits/Traits.h:88-93 | `check_type_concepts` yields true or the one diagnostic, nothing else |
| Traits.RemoveCvIdempotent | include/Traits/Traits.h:40 | removing qualifiers twice is removing them once |
| Traits.AttributesIgnoreCv | include/Traits/Traits.h:44-51 | qualifiers change neither layout attribute |
| Traits.NotPodUnlessDeclared | include/Traits/Traits.h:22-36 | with no declarations, a type is POD exactly when it is a primitive, however qualified |
| Traits.PrimitivesArePod | include/Traits/Traits.h:26-36 | every primitive, qualified or not, is POD and fixed-size under any registry |
| Traits.FixedSizeIsPod | include/Traits/Traits.h:65-66 | fixed-size is exactly POD |
| Traits.VariableSizeExactly | include/Traits/Traits.h:71-83 | variable-size is exactly `std::vector` of anything and `std::string`, however qualified |
| Traits.ClassificationIgnoresCv | include/Traits/Traits.h:39-40 | qualifying a type changes none of its three classifications |
| Traits.DeclarationsKeepRegistryAccepted | include/Traits/Traits.h:44-51 | an accepted declaration keeps every registered type standard-layout and trivially copyable |
| Traits.DeclareAll | include/Traits/Traits.h:44-59 | a run of consecutive macro uses, stopping at the first that fails; its outcome is stated by `Traits.DeclareDistinctTypes` and `Traits.GlmDeclarationsAccepted` |
| Traits.GlmDeclarationsAccepted | include/Traits/Traits.h:54-59 | the header's six glm declarations pass the macro's checks, and made in order from no declarations they compile to exactly the six types |
| Traits.NoTypeIsBoth | include/Traits/Traits.h:88-93 | with any registry the macro accepted, `check_type_concepts` passes for every type |
| Traits.CheckRejectsExactlyAmbiguous | include/Traits/Traits.h:88-93 | under every registry `check_type_concepts` fails exactly for the types that are both POD and variable-size, with the one diagnostic; qualifiers do not change the outcome |
| Traits.CheckRejectsAmbiguousType | include/Traits/Traits.h:88-93 | an instance: a registry that names `std::string` bypassing the macro makes `check_type_concepts` fail for it, qualified or not |
| Scalars.Size | include/Traits/Traits.h:26-36 | `sizeof` of each primitive is between 1 and 8 |
| Scalars.Align | include/Traits/Traits.h:26-36 | `alignof` of each primitive is its size, as on the 64-bit targets the model assumes |
| Scalars.Bits | include/Common/Common.h:62-65 | the unsigned bit pattern: the value itself, or the value plus 2^width when negative |
| Scalars.FromBits | include/Accessor/Accessor.h:89-93 | the value a bit pattern stands for is a value of the type |
| Scalars.Encode | include/Builder/Builder.h:81-87 | the bytes of a value are exactly `sizeof(T)` bytes long |
| Scalars.Decode | include/Accessor/Accessor.h:82-94 | decoding `sizeof(T)` bytes gives a value of the type |
| Scalars.DecodeEncode | include/Builder/Builder.h:81-87 | every value of every primitive type survives encoding and decoding |
| Scalars.EncodeDecode | include/Accessor/Accessor.h:82-94 | decoding then re-encoding gives the bytes back, except for a bool byte other than 0 or 1 |
| Scalars.BoolEncoding | include/Builder/Builder.h:90-94 | a bool is one byte, 1 for true and 0 for false |
| Scalars.MinusOneIsAllOnes | include/Builder/Builder.h:81-87 | a negative value is stored as its two's complement: -1 is all ones |
| Scalars.EncodeArray | include/Builder/Builder.h:205-207 | the elements' bytes one after another: |es| × `sizeof(T)` bytes |
| Scalars.EncodeArrayElement | include/Builder/Builder.h:205-207 | element i occupies the `sizeof(T)` bytes starting i × `sizeof(T)` in, and those bytes are its encoding |
| Scalars.EncodeArrayAppend | include/Builder/Builder.h:205-207 | the bytes of a concatenation of arrays are the concatenation of their bytes |
| Scalars.DecodeArrayElement | include/Accessor/Accessor.h:176-192 | decoding element i's bytes gives element i back |
| Scalars.EncodeArraySnoc | include/Builder/Builder.h:205-207 | writing one more element appends exactly its bytes |
| Builder.Padding | include/Builder/Builder.h:101 | the padding count is below the alignment, makes the offset a multiple of it, and is 0 exactly when the offset is already aligned |
| Builder.PaddingIsAlignUp | include/Builder/Builder.h:100-108 | for a power-of-two alignment, the padded offset is `align_up` of the offset |
| Builder.HeaderImage | include/Builder/Builder.h:121-127 | the header image built from `to_little_endian` of each field is the header's wire encoding, on either host |
| Builder.EntryImage | include/Builder/Builder.h:172-177 | the entry image built from `to_little_endian` of each field is the entry's wire encoding, on either host |
| Builder.PatchedTotalSize | include/Builder/Builder.h:142-144 | back-patching total_size changes that field of the header and no other |
| Builder.PatchedEntry | include/Builder/Builder.h:172-177 | after back-patching, the entry reads back as the one written |
| Builder.EndSizeFits | include/Builder/Builder.h:135-137 | the size check as intended: start at or before the cursor, and at most 2^32 - 1 bytes between them |
| Builder.EndSizeFitsAsWritten | include/Builder/Builder.h:135-137 | the size check as written, on the 64-bit wrapped difference |
| Builder.EntryInBounds | include/Builder/Builder.h:167 | the bounds check as intended: the entry's 8 bytes end at or below the cursor |
| Builder.EntryInBoundsAsWritten | include/Builder/Builder.h:167 | the bounds check as written, on the 64-bit wrapped sum |
| Builder.EndSizeChecksAgree | include/Builder/Builder.h:135-137 | the written and the intended size check agree whenever the object does not start past the write head |
| Builder.EndSizeCheckWrapsAround | include/Builder/Builder.h:135-137 | the written size check passes for start 2^64 - 16 with 16 bytes written; the intended one fails |
| Builder.EntryChecksAgree | include/Builder/Builder.h:167 | the written and the intended bounds check agree whenever the sum does not wrap |
| Builder.EntryCheckWrapsAround | include/Builder/Builder.h:167-170 | for entry 2^64 - 8 with 16 bytes written, the written bounds check and the alignment check pass; the intended bounds check fails |
| Builder.RiftBufferBuilder.constructor | include/Builder/Builder.h:27-30 | a new builder is empty with the cursor at 0 |
| Builder.RiftBufferBuilder.WithCapacity | include/Builder/Builder.h:33-35 | a builder with reserved capacity is just as empty |
| Builder.RiftBufferBuilder.GetSize | include/Builder/Builder.h:38-40 | the number of bytes written |
| Builder.RiftBufferBuilder.GetCurrentOffset | include/Builder/Builder.h:150-152 | the offset of the next write is the end of the written bytes |
| Builder.RiftBufferBuilder.GetBufferPtr | include/Builder/Builder.h:43-45 | the bytes the buffer pointer shows are exactly those written |
| Builder.RiftBufferBuilder.Reset | include/Builder/Builder.h:48-51 | the builder is empty again with the cursor at 0 |
| Builder.RiftBufferBuilder.WriteRaw | include/Builder/Builder.h:73-77 | the data is appended and the cursor advances by its length |
| Builder.RiftBufferBuilder.WriteValue | include/Builder/Builder.h:81-87 | exactly the `sizeof(T)` little-endian bytes of the value are appended, on either host |
| Builder.RiftBufferBuilder.WriteBool | include/Builder/Builder.h:90-94 | exactly one byte, 1 or 0, is appended |
| Builder.RiftBufferBuilder.PadToAlignment | include/Builder/Builder.h:100-108 | fewer than `alignment` zero bytes are appended, and the cursor becomes a multiple of the alignment |
| Builder.RiftBufferBuilder.BeginObject | include/Builder/Builder.h:116-129 | returns the 8-aligned offset after zero padding; appends the header with magic, schema id, total size 0 and version flags; the cursor ends at start + 16 |
| Builder.RiftBufferBuilder.EndObject | include/Builder/Builder.h:133-147 | fails unchanged when the object starts past the write head or its size exceeds 2^32 - 1; otherwise overwrites only the total_size bytes with LE(cursor - start), returns that size, and leaves the cursor alone |
| Builder.RiftBufferBuilder.ReserveOffsetTableEntry | include/Builder/Builder.h:156-163 | returns the 4-aligned offset after zero padding, appends 8 zero bytes, and the cursor ends at entry + 8 |
| Builder.RiftBufferBuilder.UpdateOffsetTableEntry | include/Builder/Builder.h:166-178 | fails unchanged, checked in order, when the entry does not end within the written bytes (compared without wrap) or is misaligned; otherwise overwrites exactly its 8 bytes with LE(offset), LE(size); the cursor is unchanged |
| Builder.RiftBufferBuilder.AddString | include/Builder/Builder.h:184-196 | returns the cursor truncated to 32 bits, without padding; appends the bytes and one zero; the cursor advances by length + 1 |
| Builder.RiftBufferBuilder.WriteElement | include/Builder/Builder.h:206 | an element is written with the overload its type selects: its encoding is appended |
| Builder.RiftBufferBuilder.WriteElements | include/Builder/Builder.h:205-207 | the loop appends every element's bytes, in order |
| Builder.RiftBufferBuilder.AddArray | include/Builder/Builder.h:200-209 | pads to `alignof(T)` with zeros, returns the padded offset truncated to 32 bits, and appends every element in order |
| Accessor.LoadLittleEndian | include/Accessor/Accessor.h:61-63 | a field loaded by the host and converted by `from_little_endian` is the little-endian value of its bytes |
| Accessor.NewView | include/Accessor/Accessor.h:35-58 | succeeds exactly when the start is non-null, the magic number matches and total_size >= 16; the failures are null, then magic, then size; alignment is not checked |
| Accessor.GetSchemaId | include/Accessor/Accessor.h:61 | the header's schema_id field, bytes 4-7 |
| Accessor.GetTotalSize | include/Accessor/Accessor.h:62 | the header's total_size field, bytes 8-11 |
| Accessor.GetVersionFlags | include/Accessor/Accessor.h:63 | the header's version_flags field, bytes 12-15 |
| Accessor.GetPtrAtOffset | include/Accessor/Accessor.h:67-72 | succeeds exactly when offset + size_needed <= total_size, and then yields start + offset |
| Accessor.GetPtrAtOffsetAsWritten | include/Accessor/Accessor.h:67-72 | the check as written compares the 64-bit wrapped sum |
| Accessor.PtrChecksAgreeWithoutWrap | include/Accessor/Accessor.h:67-72 | the written and the corrected check agree whenever the sum does not wrap |
| Accessor.PtrCheckWrapsAround | include/Accessor/Accessor.h:67-72 | the written check admits offset 16 with size 2^64 - 1 in a 16-byte object; the corrected one refuses it |
| Accessor.GetFixedField | include/Accessor/Accessor.h:82-94 | succeeds exactly when the address is aligned for the type, and then returns the little-endian decoding of its `sizeof(T)` bytes |
| Accessor.GetFixedFieldBool | include/Accessor/Accessor.h:97-102 | always succeeds, and is true exactly when the byte is nonzero |
| Accessor.NewStringView | include/Accessor/Accessor.h:117-124 | succeeds exactly on a non-null pointer and keeps the pointer and count |
| Accessor.StringLength | include/Accessor/Accessor.h:127 | `length()`: the count; stated by `Accessor.StringViewReports` |
| Accessor.CStr | include/Accessor/Accessor.h:130 | `c_str()`: the pointer; stated by `Accessor.StringViewReports` |
| Accessor.StringEmpty | include/Accessor/Accessor.h:136 | `empty()`; stated by `Accessor.StringViewReports` |
| Accessor.ToString | include/Accessor/Accessor.h:133 | `to_string()` has `length()` bytes, and byte i is the byte at `c_str() + i` |
| Accessor.StringViewReports | include/Accessor/Accessor.h:117-136 | `length()` is the count, `c_str()` is the pointer, and `empty()` holds exactly when the count is 0 |
| Accessor.NewArrayView | include/Accessor/Accessor.h:151-159 | succeeds exactly on a non-null pointer and keeps the element type, pointer and count |
| Accessor.ArraySize | include/Accessor/Accessor.h:162 | `size()`: the count; stated by `Accessor.ArrayViewReports` |
| Accessor.ArrayEmpty | include/Accessor/Accessor.h:165 | `empty()`; stated by `Accessor.ArrayViewReports` |
| Accessor.ArrayViewReports | include/Accessor/Accessor.h:151-165 | `size()` is the count given to the constructor, and `empty()` holds exactly when it is 0 |
| Accessor.ElementOffset | include/Accessor/Accessor.h:176 | the element offset `index * sizeof(T)` in 32-bit arithmetic; exact within range by `Accessor.ElementOffsetExact` |
| Accessor.ElementOffsetExact | include/Accessor/Accessor.h:176 | within the 32-bit range, element i is i × `sizeof(T)` bytes in |
| Accessor.ArrayAt | include/Accessor/Accessor.h:172-201 | fails on index >= size(), then on a misaligned element address; otherwise returns the element decoded as `GetFixedField` decodes it |
| Accessor.ElementReadBack | include/Accessor/Accessor.h:172-192 | an in-range element whose aligned bytes encode v is read as v |
| Accessor.AlignedPlusEntries | include/Accessor/Accessor.h:236-238 | stepping by whole entries from a 4-aligned table keeps 4-alignment |
| Accessor.GetOffsetTableEntry | include/Accessor/Accessor.h:215-239 | fails, in order, on a null base, table offset 0, index >= count and a misaligned table; with a 64-bit `size_t`, never fails the fifth check; otherwise yields the 4-aligned address base + table_offset + 8 × index |
| RoundTrip.ViewOfHeader | include/Accessor/Accessor.h:35-63 | a finished header opens as a view whose getters return its fields |
| RoundTrip.FieldReadBack | include/Accessor/Accessor.h:82-94 | a value `WriteValue` wrote at an aligned address is read back by `GetFixedField` |
| RoundTrip.BoolFieldReadBack | include/Accessor/Accessor.h:97-102 | a bool `WriteValue` wrote is read back by the bool overload |
| RoundTrip.EntryFieldsReadBack | include/Types/Types.h:28-31 | the offset and size of a table entry read back as 32-bit fields at 0 and 4 |
| RoundTrip.StringReadBack | include/Accessor/Accessor.h:117-136 | a string `AddString` wrote reads back through a string view of its length; it is empty exactly when the string is, and is zero-terminated |
| RoundTrip.ElementAligned | include/Accessor/Accessor.h:182-183 | every element of an aligned array is aligned |
| RoundTrip.ArrayReadBack | include/Accessor/Accessor.h:172-192 | every element `AddArray` wrote at an aligned address reads back through an array view |
| RoundTrip.ElementPlacement | include/Accessor/Accessor.h:176-183 | element i is exactly i × `sizeof(T)` bytes in, inside the array, and aligned |
| RoundTrip.ElementLaidOut | include/Builder/Builder.h:205-207 | element i's bytes in memory are its encoding |
| RoundTrip.AlignedForAnyPrimitive | include/Types/Types.h:15 | an 8-aligned address is aligned for every primitive |
| RoundTrip.AlignedAfterHeader | include/Types/Types.h:15-22 | the byte after an 8-aligned header is aligned for every primitive |
| RoundTrip.LaidOut | include/Builder/Builder.h:116-196 | the record client's bytes before back-patching: header, level, blank entry, then the name and its terminator |
| RoundTrip.LinkedRecord | include/Builder/Builder.h:166-178 | patching the entry of a laid-out record changes only the entry |
| RoundTrip.PatchedRecord | include/Builder/Builder.h:133-178 | patching the entry and then the total size gives the finished record layout |
| RoundTrip.FinishedRecord | include/Builder/Builder.h:133-147 | patching the total size into the record changes only that field |
| RoundTrip.BuildRecord | include/Builder/Builder.h:116-196 | the builder's call sequence yields the finished record: header with its total size, level, entry (28, name length), and name |
| RoundTrip.LayOutRecord | include/Builder/Builder.h:116-196 | opening, writing the level, reserving the entry and adding the name gives exactly those bytes, with the entry at 20 and the name at 28 |
| RoundTrip.OpenRecord | include/Builder/Builder.h:81-129 | opening and writing the level in an empty builder puts the header at 0 and the level at 16 |
| RoundTrip.PlaceRecord | include/Accessor/Accessor.h:35-58 | placing the finished buffer at an address moves every part of the record by that address |
| RoundTrip.RecordLevelReads | include/Accessor/Accessor.h:67-94 | the level passes the bounds check and reads back |
| RoundTrip.RecordEntryReads | include/Accessor/Accessor.h:215-239 | the table entry is found and its fields read back as (28, name length) |
| RoundTrip.TableAligned | include/Accessor/Accessor.h:229-230 | the table of a record at an 8-aligned address is 4-aligned |
| RoundTrip.RecordStringReads | include/Accessor/Accessor.h:117-133 | the name reads back through a string view at its offset |
| RoundTrip.ReadHeader | include/Accessor/Accessor.h:35-63 | opening the view and reading the getters returns the header's fields |
| RoundTrip.ReadLevel | include/Accessor/Accessor.h:67-94 | the level read through `GetPtrAtOffset` as written and `GetFixedField` is the level written |
| RoundTrip.ReadName | include/Accessor/Accessor.h:108-239 | the name read through the offset table and a string view is the name written |
| RoundTrip.BuildAndReadRecord | include/Builder/Builder.h:116-196 | every value the record client writes is the value it reads back |
| RoundTrip.LayOutArrayObject | include/Builder/Builder.h:116-209 | opening an object and adding an array puts the array right after the header, with no padding |
| RoundTrip.PaddingAfterHeader | include/Builder/Builder.h:202 | nothing pads the first byte after a header, whatever the element type |
| RoundTrip.OpenObject | include/Builder/Builder.h:116-129 | in an empty builder the header goes at offset 0 and the cursor ends at 16 |
| RoundTrip.BuildArray | include/Builder/Builder.h:116-209 | the builder's array object is its header with the total size patched in, then the array's bytes at offset 16 |
| RoundTrip.FinishedObject | include/Builder/Builder.h:133-147 | patching the total size into a header followed by data changes only that field |
| RoundTrip.ReadArray | include/Accessor/Accessor.h:143-201 | reading every index of an array view returns the elements that were encoded there |
| RoundTrip.BuildAndReadArray | include/Builder/Builder.h:116-209 | the array client reads back, through a view on the placed buffer, the schema id and version flags it wrote, a total size of 16 + count × `sizeof(T)`, and every element in order |
| RoundTrip.ArrayInMemory | include/Accessor/Accessor.h:67-72 | data after a placed header is found at address base + 16 |
| RoundTrip.ArrayFitsOffsets | include/Accessor/Accessor.h:176 | an object of 32-bit size has element count and byte length within 32 bits |

## Left out

- Logging and `std::abort`. Each assertion is a `Failure` value that states the check it evidently intends. Neither build of the library performs the checks: a release build drops them, and a debug build does not compile, because five `is_aligned` calls pass an integer where a pointer is expected. Neither configuration is modelled.
- Vector capacity: `EnsureCapacity`, `reserve` and the capacity bound in `AdvanceOffset`. The buffer is modelled as exactly the bytes below the cursor, so `AdvanceOffset`'s assertion always holds there.
- Builder.RiftBufferBuilder.WriteRaw: the model holds the bytes the builder evidently intends, not what the vector holds. The library writes past the vector's `size()` into reserved storage and never resizes it, so `size()` stays 0. When `EnsureCapacity` grows the storage through `reserve`, the vector copies its `size()` bytes, which is none: every byte written before the growth is lost, and earlier `GetBufferPtr` results dangle. With the default `reserve(1024)`, a buffer longer than 1024 bytes is therefore corrupt. The same holds for every method that appends (`PadToAlignment`, `WriteValue`, `BeginObject`, `ReserveOffsetTableEntry`, `AddString`, `AddArray`).
- The copy and move operations of the builder are compile-time mechanics with no byte-level effect.
- `GenericRiftObject_Serialized` and its `offsetof` assertion are a placeholder type with no runtime behaviour.
- `RiftSerializer.h` only includes the other headers. It is not part of this model.
- glm types and aggregates declared as POD are classified (`Traits`), but writing and reading them through the builder and accessors is not modelled. Those things only copy their bytes, and their layout is foreign.
- Compile-time mechanics: `enable_if`, template instantiation and the endianness detection macros. The host order is a parameter instead.
- The `size_t` cursor of the builder is unbounded here. With a 64-bit `size_t`, a buffer of 2^64 bytes cannot exist.
- The model assumes a 64-bit `size_t` and `uintptr_t` (`WordModulus` is 2^64), and `alignof` equal to `sizeof` for the eleven primitives (`Scalars.Align`). Neither is a C++ guarantee. With a 32-bit `size_t`, the fifth check of `GetOffsetTableEntry` is computed modulo 2^32 and can fail (index 2^29 - 1 with count 2^29 gives 2^32 - 8 < 0), and the wrap inputs of the three "## Findings" rows move to the 2^32 scale. On the i386 System V ABI, `double` and the 64-bit integers need only 4-byte alignment, so the alignment checks would accept addresses the model refuses.
- Builder.RiftBufferBuilder.WriteValue: does not cover float and double on a big-endian host. There the library swaps through a value conversion to an integer, which is not a bit copy.
- Builder.RiftBufferBuilder.AddArray: does not cover float and double elements on a big-endian host, for the same reason.
- Builder.RiftBufferBuilder.WriteElement: does not cover float and double elements on a big-endian host, for the same reason.
- Builder.RiftBufferBuilder.WriteElements: does not cover float and double elements on a big-endian host, for the same reason.
- Builder.RiftBufferBuilder.AddArray: the new cursor is not stated separately. It follows from `Valid()` and the new buffer.
- Accessor.GetFixedField: does not cover float and double on a big-endian host, for the same reason as `WriteValue`.
- Accessor.ArrayAt: does not cover float and double elements on a big-endian host, for the same reason.
- Accessor.ArrayAt: the non-POD copy branch of `operator[]` is not modelled, because no fixed-size type reaches it (`Traits.FixedSizeIsPod`).
- Builder.RiftBufferBuilder.EndObject: requires that the object starts past the cursor or that its total_size field lies below the cursor. It excludes a start within the 11 bytes below the cursor or at the cursor: there the size check passes and the library's `memcpy` writes past the written bytes.
- Accessor.GetFixedField: with p == Bool, reads any nonzero byte as true. `GetFixedField<bool>` reinterprets the byte as a C++ `bool` (include/Accessor/Accessor.h:85, 93), which is undefined for bytes other than 0 and 1.
- Accessor.ArrayAt: with bool elements, the same: `operator[]` calls `GetFixedField<bool>` (include/Accessor/Accessor.h:191).
- Floating-point values are opaque 4- and 8-byte bit patterns. No floating-point arithmetic is modelled.

## Findings

| source | as written | input that shows it | evidently intended | confidence | as-written member | corrected member |
|---|---|---|---|---|---|---|
| include/Accessor/Accessor.h:69 | `offset + size_needed <= GetTotalSize()` is evaluated in 64-bit `size_t`, so a large `size_needed` wraps the sum and passes the bounds check | a 16-byte object, offset 16, size_needed 2^64 - 1: the sum wraps to 15 <= 16, and the pointer one past the object is returned | the range offset..offset+size_needed lies within total_size, compared without wrap-around | not executed | Accessor.GetPtrAtOffsetAsWritten (Accessor.PtrCheckWrapsAround) | Accessor.GetPtrAtOffset |
| include/Builder/Builder.h:167 | `entry_offset + sizeof(OffsetTableEntry) <= m_current_offset` is evaluated in 64-bit `size_t`, so an entry offset near 2^64 wraps the sum and passes the bounds check | 16 bytes written, entry offset 2^64 - 8: the sum wraps to 0 <= 16, the offset is 4-aligned, and the entry is copied to the 8 bytes before the buffer | the entry's 8 bytes lie below the write head, compared without wrap-around | not executed | Builder.EntryInBoundsAsWritten (Builder.EntryCheckWrapsAround) | Builder.RiftBufferBuilder.UpdateOffsetTableEntry |
| include/Builder/Builder.h:135-137 | `m_current_offset - object_start_offset` is a 64-bit `size_t` difference, so a start past the write head wraps to a small size and passes the size check | 16 bytes written, start 2^64 - 16: the difference wraps to 32 <= 2^32 - 1, and total_size is copied to the 4 bytes starting 8 bytes before the buffer | the object starts at or before the write head and spans at most 2^32 - 1 bytes | not executed | Builder.EndSizeFitsAsWritten (Builder.EndSizeCheckWrapsAround) | Builder.RiftBufferBuilder.EndObject |
