# jgit pack file reader, modelled in Dafny

This project models the binary reading core of jgit's `PackFile`. The core
opens a git pack and its original-layout index. It checks the pack's 12-byte
preamble, loads the index's 256 fan-out buckets into memory and releases the
index. It then looks objects up by id with a binary search inside one bucket.
Finally, it decodes an object's variable-length type/size header, and for a
delta its back-offset or base id, into the loader the object calls for.

The modules follow the source's own structure:

- `JavaInts`: Java `int` and `long` wrap-around, and `int` shifts, written out
  over unbounded integers.
- `Bytes`: unsigned bytes, big-endian words, and 20-byte object ids with
  their unsigned lexicographic order.
- `Errors`: the exceptions the reader raises, as values. Each one is marked
  as an `IOException` (which the constructor catches) or as an unchecked
  exception (which it does not).
- `ByteSources`: the random-access file the pack and the index are read
  from. Only positioned reads and the open/closed state are modelled.
- `PackHeader`: the preamble (`readPackHeader`) as a parse function, with
  its writer and round trip.
- `PackIndex`: the index (`readIndexHeader`, `findOffset`). This module:
  - specifies each bucket with the source's `int` truncations;
  - gives the binary search one probe per call;
  - proves that a sorted, well-formed index finds exactly the records it holds.
- `ObjectHeader`: the two variable-length encodings, as the reader decodes
  them. Each has a writer, a round trip and worked examples.
- `ObjectReader`: the reader's type switch and the loader it builds
  (`reader`, `whole`).
- `Packs`: the `PackFile` class itself. It holds the fields `objectCnt` and
  `idxdata`, uses `idxdata` as an array of 256 buckets, and has imperative
  methods for the constructor, `readPackHeader`, `readIndexHeader`,
  `findOffset`, `hasObject`, `get`, `reader` and `close`. Each method's loop
  is proved against the functions above.

### Where the model follows the code

- The index length is checked against the object count from the pack's
  preamble, not against the last fan-out entry. `ParseIndex` does the same.
- The fan-out table is not checked to be non-decreasing.
  - A decreasing entry yields a null bucket: `BucketNegativeSkipped`.
  - A wrapped `n * 24` raises `NegativeArraySizeException`.
  - `BucketLayout` and `WellFormedIndex` state what a sane table gives;
    `BucketRecords` states what one bucket gives on its own.
- A failure that is not an `IOException` passes through the constructor's
  `catch`. While the pack is being opened the only such failure is the
  `NegativeArraySizeException` of a bucket whose `n * 24` wraps negative.
  It leaves the pack handle open, and `PackFile.Open` states exactly that.
  The `ArrayIndexOutOfBoundsException` cases arise only later, in
  `findOffset` and `reader`.
- A type/size header or back-offset that does not end within the 20 bytes
  read makes the reader index past its buffer. This is an unchecked
  out-of-bounds failure, not a format error.
- The size is summed from `int` shifts (`(c & 0x7f) << shift`), so a size of
  2^31 or more reads back wrong. `SizeHeaderWraps` shows such a header
  decoding to a negative size. The round trip is therefore proved for sizes
  below 2^31 only.
- The reader computes an offset delta's base (`objOffset - ofs`) without
  checking that it is positive or inside the pack. There is no check for
  cycles in delta chains: `resolveBase` simply calls `reader` again.
- The binary search probes the record's id at offset +4 and assembles the
  offset from the 4 bytes before it. `RecordId` and `RecordOffset` read
  those same bytes.

## Model

| member | source | states |
|---|---|---|
| JavaInts.Int32 | org.spearce.jgit/src/org/spearce/jgit/lib/PackFile.java:183-189 | The result is a Java `int` (in [-2^31, 2^31)) and equals its argument whenever that is already in `int` range, so the casts `(int)` of the bucket sizes and offsets only change values that overflow. |
| JavaInts.Int32Congruent | org.spearce.jgit/src/org/spearce/jgit/lib/PackFile.java:183-189 | `Int32` moves its argument by a whole multiple of 2^32: it is two's complement truncation. |
| JavaInts.Int64 | org.spearce.jgit/src/org/spearce/jgit/lib/PackFile.java:225-233 | The result is a Java `long` and equals its argument whenever that is in `long` range; used for the `long` arithmetic of the back-offset and of `objOffset - ofs`. |
| JavaInts.Int64Congruent | org.spearce.jgit/src/org/spearce/jgit/lib/PackFile.java:225-233 | `Int64` moves its argument by a whole multiple of 2^64. |
| JavaInts.ShiftLeftInt | org.spearce.jgit/src/org/spearce/jgit/lib/PackFile.java:207 | `x << s` on `int`: always in `int` range, the shift distance taken modulo 32 as Java does. |
| JavaInts.ShiftLeftExact | org.spearce.jgit/src/org/spearce/jgit/lib/PackFile.java:207 | When `x * 2^s` fits below 2^31 the `int` shift loses nothing: it equals `x * 2^s`. |
| Bytes.Be32RoundTrip | org.spearce.jgit/src/org/spearce/jgit/lib/PackFile.java:162-167 | The big-endian unsigned word read at the position where a writer stored `v` is `v`, whatever surrounds it. |
| Bytes.Be32OfEncoding | org.spearce.jgit/src/org/spearce/jgit/lib/PackFile.java:264-268 | The four bytes of a word, weighted 2^24, 2^16, 2^8, 1 as the offset is reassembled, add up to the word. |
| Bytes.CompareZero | org.spearce.jgit/src/org/spearce/jgit/lib/PackFile.java:260 | The id comparison is zero exactly when the two ids are equal. |
| Bytes.CompareAntisymmetric | org.spearce.jgit/src/org/spearce/jgit/lib/PackFile.java:260 | Swapping the ids negates the comparison. |
| Bytes.CompareTransitive | org.spearce.jgit/src/org/spearce/jgit/lib/PackFile.java:260 | The id order is transitive. |
| ByteSources.ByteSource.Close | org.spearce.jgit/src/org/spearce/jgit/lib/PackFile.java:70-77 | The handle is released in every case; the result is a close failure exactly when closing reports one. |
| ByteSources.ByteSource.ReadInto | org.spearce.jgit/src/org/spearce/jgit/lib/PackFile.java:154 | `read(pos, buf)` returns how many bytes the file has from `pos` (at most the buffer's length), copies exactly those and leaves the rest of the buffer unchanged; a negative position fails. |
| ByteSources.ByteSource.ReadFullyInto | org.spearce.jgit/src/org/spearce/jgit/lib/PackFile.java:200 | `readFully(pos, buf)` succeeds exactly when the file holds `buf.Length` bytes at `pos`, and the buffer then holds exactly those bytes. |
| ByteSources.ReadFullyAt | org.spearce.jgit/src/org/spearce/jgit/lib/PackFile.java:200 | Reading 20 bytes where an encoded header starts gives that header followed by the first bytes of what follows it. |
| ByteSources.ReadPaddedInside | org.spearce.jgit/src/org/spearce/jgit/lib/PackFile.java:190 | A `read` that lies wholly inside the file delivers exactly the file's bytes, with no zero padding. |
| PackHeader.PackHeaderRoundTrip | org.spearce.jgit/src/org/spearce/jgit/lib/PackFile.java:148-168 | A preamble a writer emits parses back to its object count when its version is 2 or 3, and is refused with that version number otherwise. |
| PackHeader.PackHeaderAccepted | org.spearce.jgit/src/org/spearce/jgit/lib/PackFile.java:154-167 | The preamble is accepted if and only if the file has 12 bytes, starts with `PACK` and has version 2 or 3; the count is then the third word. |
| PackHeader.PackHeaderSignatureRejected | org.spearce.jgit/src/org/spearce/jgit/lib/PackFile.java:154-158 | "Not a PACK file." is the outcome if and only if the first four bytes are missing or differ from `PACK`. |
| PackHeader.PackHeaderVersionRejected | org.spearce.jgit/src/org/spearce/jgit/lib/PackFile.java:162-164 | For a signed preamble the unsupported-version error is the outcome if and only if the version word is neither 2 nor 3. |
| PackIndex.ParseIndexLengthChecked | org.spearce.jgit/src/org/spearce/jgit/lib/PackFile.java:171-173 | The index is refused as corrupt if and only if its length is not 1024 + 24 * count + 40. |
| PackIndex.ParseIndexBuckets | org.spearce.jgit/src/org/spearce/jgit/lib/PackFile.java:177-192 | For an index of the right length, loading succeeds if and only if every bucket reads; it then yields the 256 buckets in order, and otherwise fails with the error of the first bucket that fails. |
| PackIndex.BucketLayout | org.spearce.jgit/src/org/spearce/jgit/lib/PackFile.java:180-191 | With a non-decreasing fan-out table whose records lie inside the file, bucket k is null when its count difference is zero and otherwise exactly the index bytes of records Count(k-1) .. Count(k)-1. |
| PackIndex.BucketRecords | org.spearce.jgit/src/org/spearce/jgit/lib/PackFile.java:180-191 | Bucket k alone, whatever the rest of the fan-out table holds: when its entry is at least the previous one and its records lie inside the file below 2^31, it is null for an empty range and otherwise exactly the index bytes of its records. |
| PackIndex.BucketNegativeSkipped | org.spearce.jgit/src/org/spearce/jgit/lib/PackFile.java:181-187 | A fan-out entry smaller than the one before it (by less than 2^31) gives a null bucket: the `n > 0` test skips it. |
| PackIndex.SaneBucketsRead | org.spearce.jgit/src/org/spearce/jgit/lib/PackFile.java:180-191 | With a sane fan-out table no bucket read fails. |
| PackIndex.ProbeInside | org.spearce.jgit/src/org/spearce/jgit/lib/PackFile.java:259-260 | A probe of record i lies inside the bucket if and only if i is below the bucket's record count. |
| PackIndex.SearchInBounds | org.spearce.jgit/src/org/spearce/jgit/lib/PackFile.java:255-271 | On a non-empty bucket every probe of the binary search is inside the bucket, so the search never faults. |
| PackIndex.SearchSound | org.spearce.jgit/src/org/spearce/jgit/lib/PackFile.java:257-272 | Whatever the order of the records, an offset other than -1 that the search returns is the offset of a record whose id is the one sought. |
| PackIndex.SearchFinds | org.spearce.jgit/src/org/spearce/jgit/lib/PackFile.java:257-272 | In a bucket whose ids strictly increase, the search returns the offset of the record holding the id sought. |
| PackIndex.BucketLookupCorrect | org.spearce.jgit/src/org/spearce/jgit/lib/PackFile.java:250-273 | For one bucket: null gives -1; a sorted non-empty bucket gives the offset of the record holding the id, and -1 when no record holds it. |
| PackIndex.SliceSorted | org.spearce.jgit/src/org/spearce/jgit/lib/PackFile.java:177-191 | The records of one bucket of a sorted index are themselves sorted. |
| PackIndex.SliceRecord | org.spearce.jgit/src/org/spearce/jgit/lib/PackFile.java:188-190 | Record j of a bucket is record Count(k-1) + j of the index: the same id and the same offset. |
| PackIndex.WellFormedBucket | org.spearce.jgit/src/org/spearce/jgit/lib/PackFile.java:170-193 | A well-formed index loads, and each bucket is null or the sorted records of its fan-out range. |
| PackIndex.IndexLookupFound | org.spearce.jgit/src/org/spearce/jgit/lib/PackFile.java:250-273 | Looking up an id held by record i of a well-formed index gives the offset stored in record i. |
| PackIndex.IndexLookupMissing | org.spearce.jgit/src/org/spearce/jgit/lib/PackFile.java:250-273 | Looking up an id that no record of a well-formed index holds gives -1. |
| ObjectHeader.RunFromStops | org.spearce.jgit/src/org/spearce/jgit/lib/PackFile.java:205-209 | The header loop stops at the first byte from its start with bit 7 clear, and runs off the buffer only when there is none. |
| ObjectHeader.RunLengthTerminates | org.spearce.jgit/src/org/spearce/jgit/lib/PackFile.java:205-209 | A run's length covers exactly the bytes up to the first one with bit 7 clear; no length means every byte has bit 7 set. |
| ObjectHeader.RunLengthOfUnterminated | org.spearce.jgit/src/org/spearce/jgit/lib/PackFile.java:205-206 | A 20-byte buffer whose every byte has bit 7 set holds no complete header, so the loop indexes past the buffer. |
| ObjectHeader.RunLengthOfTerminated | org.spearce.jgit/src/org/spearce/jgit/lib/PackFile.java:205-209 | A complete run is read up to its last byte, whatever follows it. |
| ObjectHeader.SizeFromSnoc | org.spearce.jgit/src/org/spearce/jgit/lib/PackFile.java:206-208 | One more continuation byte adds its 7 bits shifted by 4 + 7 per earlier continuation byte. |
| ObjectHeader.SizeGroupsTerminated | org.spearce.jgit/src/org/spearce/jgit/lib/PackFile.java:205 | The continuation bytes a writer emits form one complete run. |
| ObjectHeader.SizeHeaderTerminated | org.spearce.jgit/src/org/spearce/jgit/lib/PackFile.java:201-205 | The type/size header a writer emits forms one complete run. |
| ObjectHeader.SizeGroupsValue | org.spearce.jgit/src/org/spearce/jgit/lib/PackFile.java:206-208 | Continuation bytes for a value that fits in `int` once shifted add back up to that value, shifted. |
| ObjectHeader.SizeGroupsLength | org.spearce.jgit/src/org/spearce/jgit/lib/PackFile.java:205-209 | A value below 2^(7k) needs at most k continuation bytes. |
| ObjectHeader.FirstByteFields | org.spearce.jgit/src/org/spearce/jgit/lib/PackFile.java:201-203 | The first header byte yields the type code (bits 6-4) and the low four size bits. |
| ObjectHeader.SizeContinuation | org.spearce.jgit/src/org/spearce/jgit/lib/PackFile.java:203-209 | The continuation bytes of an encoded header carry every size bit above the low four, in at most four bytes. |
| ObjectHeader.SizeHeaderRoundTrip | org.spearce.jgit/src/org/spearce/jgit/lib/PackFile.java:197-210 | Decoding the header a writer emits for a type code and a size below 2^31 gives back both, with the header's exact length (at most 5), whatever follows it. |
| ObjectHeader.ShiftLeftWraps | org.spearce.jgit/src/org/spearce/jgit/lib/PackFile.java:207 | A fifth-byte group of 64 or more shifted by 25 sets the `int` sign bit: the term is 2^32 less than the mathematical product. |
| ObjectHeader.SizeHeaderWraps | org.spearce.jgit/src/org/spearce/jgit/lib/PackFile.java:201-209 | Four bytes with bit 7 set followed by a byte in 64..127 decode as a 5-byte header whose size is negative: the size is summed from `int` shifts. |
| ObjectHeader.ContinuedAll | org.spearce.jgit/src/org/spearce/jgit/lib/PackFile.java:226 | Marking the last byte of a complete run sets bit 7 of every byte of it. |
| ObjectHeader.BackOffsetTerminated | org.spearce.jgit/src/org/spearce/jgit/lib/PackFile.java:226 | What a writer emits for a distance forms one complete run. |
| ObjectHeader.OfsStepInRange | org.spearce.jgit/src/org/spearce/jgit/lib/PackFile.java:227-230 | While it fits in a `long`, one step computes `(ofs + 1) * 128 + (c & 127)` exactly. |
| ObjectHeader.OfsValueContinued | org.spearce.jgit/src/org/spearce/jgit/lib/PackFile.java:226-230 | Setting bit 7 of a run's last byte does not change the run's value: the loop masks it. |
| ObjectHeader.OfsValueAppend | org.spearce.jgit/src/org/spearce/jgit/lib/PackFile.java:226-231 | Appending a byte to a continued run of value w gives (w + 1) * 128 + c. |
| ObjectHeader.BackOffsetValue | org.spearce.jgit/src/org/spearce/jgit/lib/PackFile.java:224-231 | The back-offset a writer emits for any distance below 2^63 decodes to that distance. |
| ObjectHeader.BackOffsetLength | org.spearce.jgit/src/org/spearce/jgit/lib/PackFile.java:226-231 | A distance below 2^(7k) takes at most k bytes. |
| ObjectHeader.BackOffsetRoundTrip | org.spearce.jgit/src/org/spearce/jgit/lib/PackFile.java:222-231 | Decoding the back-offset a writer emits for a distance below 2^32 gives that distance and the encoding's exact length (at most 5), whatever follows it. |
| ObjectHeader.BlobHeaderExample | org.spearce.jgit/src/org/spearce/jgit/lib/PackFile.java:201-210 | The header byte 0x34 is a blob of size 4, and is what a writer emits for it. |
| ObjectHeader.CommitHeaderExample | org.spearce.jgit/src/org/spearce/jgit/lib/PackFile.java:201-210 | The header 94 05 is a commit of size 84, and is what a writer emits for it. |
| ObjectHeader.BackOffsetExample | org.spearce.jgit/src/org/spearce/jgit/lib/PackFile.java:224-231 | The back-offset 81 02 is the distance 258, and is what a writer emits for it. |
| ObjectHeader.SizeFromFour | org.spearce.jgit/src/org/spearce/jgit/lib/PackFile.java:206-208 | Four continuation bytes contribute four shifted groups, at shifts 4, 11, 18 and 25. |
| ObjectReader.WholeType | org.spearce.jgit/src/org/spearce/jgit/lib/PackFile.java:212-220 | A type code names a whole-object type if and only if it is 1, 2, 3 or 4. |
| ObjectReader.WholeLoader | org.spearce.jgit/src/org/spearce/jgit/lib/PackFile.java:245-248 | `whole(type, pos, size)` keeps the type and the position and casts the size to `int`, which keeps any size in `int` range. |
| ObjectReader.HeaderAt | org.spearce.jgit/src/org/spearce/jgit/lib/PackFile.java:197-210 | The header a writer emits, read at its own position in the pack, decodes to its type code, size and length. |
| ObjectReader.BackOffsetAt | org.spearce.jgit/src/org/spearce/jgit/lib/PackFile.java:222-231 | The back-offset a writer emits, read at its own position in the pack, decodes to its distance and length. |
| ObjectReader.ObjectAtWhole | org.spearce.jgit/src/org/spearce/jgit/lib/PackFile.java:212-220 | A whole object's header yields a loader of its type whose data starts right after the header, with its size. |
| ObjectReader.TwoReads | org.spearce.jgit/src/org/spearce/jgit/lib/PackFile.java:200-222 | The reader's two 20-byte reads of an offset delta start at the type/size header and at the back-offset. |
| ObjectReader.ObjectAtOfsDelta | org.spearce.jgit/src/org/spearce/jgit/lib/PackFile.java:221-234 | An offset delta's headers yield a loader whose base lies the encoded distance before the object and whose data starts after both headers. |
| ObjectReader.ObjectAtRefDelta | org.spearce.jgit/src/org/spearce/jgit/lib/PackFile.java:235-239 | A reference delta's header yields a loader naming the 20 bytes that follow the header as its base, with data 20 bytes further on. |
| ObjectReader.ObjectAtUnknownType | org.spearce.jgit/src/org/spearce/jgit/lib/PackFile.java:240-241 | Once the header decodes, the reader fails with an unknown-type error if and only if the type code is 0 or 5, and the error carries the code. |
| ObjectReader.ObjectAtOutside | org.spearce.jgit/src/org/spearce/jgit/lib/PackFile.java:199-200 | An offset that is negative or has fewer than 20 bytes after it in the pack fails as a short read. |
| Packs.RetrieveMissing | org.spearce.jgit/src/org/spearce/jgit/lib/PackFile.java:123-127 | `get` of an id that no record of a well-formed index holds returns no loader. |
| Packs.RetrieveFound | org.spearce.jgit/src/org/spearce/jgit/lib/PackFile.java:123-131 | `get` of an id held by record i of a well-formed index is the reader's outcome at the offset stored in record i, with the id attached. |
| Packs.PackFile.constructor | org.spearce.jgit/src/org/spearce/jgit/lib/PackFile.java:50-55 | A new pack file holds its pack handle; nothing is loaded yet. |
| Packs.PackFile.Open | org.spearce.jgit/src/org/spearce/jgit/lib/PackFile.java:50-83 | Opening succeeds exactly when the preamble and the index load, and yields the count and the buckets; the index handle is closed in every case; the pack handle stays open on success and on unchecked failures, and is closed on every I/O failure, which is reported unchanged. |
| Packs.PackFile.ReadPackHeader | org.spearce.jgit/src/org/spearce/jgit/lib/PackFile.java:148-168 | The object count becomes the preamble's count when the preamble parses; otherwise the parse error is returned and the count is unchanged. |
| Packs.PackFile.ReadIndexHeader | org.spearce.jgit/src/org/spearce/jgit/lib/PackFile.java:170-193 | The buckets become exactly the loaded index when it loads; otherwise the first failure is returned. |
| Packs.PackFile.ReadBucket | org.spearce.jgit/src/org/spearce/jgit/lib/PackFile.java:181-191 | One iteration of the bucket loop computes exactly the bucket it should, including the `int` truncations and the negative-size failure. |
| Packs.PackFile.FindOffset | org.spearce.jgit/src/org/spearce/jgit/lib/PackFile.java:250-254 | `findOffset(id)` is the lookup in the bucket of the id's first byte: -1 for a null bucket. |
| Packs.PackFile.SearchBucket | org.spearce.jgit/src/org/spearce/jgit/lib/PackFile.java:255-273 | The loop's outcome is the binary search over all records of the bucket. |
| Packs.PackFile.HasObject | org.spearce.jgit/src/org/spearce/jgit/lib/PackFile.java:100-102 | `hasObject(id)` is true if and only if the lookup gives an offset other than -1, and fails exactly when the lookup does. |
| Packs.PackFile.Get | org.spearce.jgit/src/org/spearce/jgit/lib/PackFile.java:123-131 | `get(id)` is no loader when the lookup gives -1, otherwise the reader's loader at the offset with the id attached, or the failure on the way. |
| Packs.PackFile.Reader | org.spearce.jgit/src/org/spearce/jgit/lib/PackFile.java:195-243 | `reader(objOffset)` is exactly the loader that decoding the object's headers at that offset calls for, or the failure on the way. |
| Packs.PackFile.ReadSizeHeader | org.spearce.jgit/src/org/spearce/jgit/lib/PackFile.java:198-210 | The first loop of `reader` computes exactly the decoded type/size header of the buffer, or runs off the buffer. |
| Packs.PackFile.ReadBackOffset | org.spearce.jgit/src/org/spearce/jgit/lib/PackFile.java:222-231 | The offset-delta loop of `reader` computes exactly the decoded back-offset of the buffer, or runs off the buffer. |
| Packs.PackFile.Close | org.spearce.jgit/src/org/spearce/jgit/lib/PackFile.java:137-139 | `close()` releases the pack handle and reports a close failure exactly when there is one. |

## Left out

- The file name of the index, derived from the pack's name (`substring` up
  to the last dot, plus `.idx`), is not modelled. The index is passed in as a
  second byte source. The unchecked exception that a name without a dot
  raises is not modelled either.
- Opening the two `WindowedFile`s is assumed to succeed. The window cache,
  memory mapping and the window sizes are not part of this model.
- `WindowedFile`'s own code is not part of this model. `read`, `readFully`
  and `readUInt32` are modelled from how `PackFile` uses them:
  - a negative position fails as a short read;
  - positions are exact integers, assumed to stay within `long` range.
- `decompress` and `readCompressed` are left out, because inflating data is
  left out.
- The object loaders (`WholePackedObjectLoader`,
  `DeltaOfsPackedObjectLoader`, `DeltaRefPackedObjectLoader`) and
  `resolveBase` are left out. A loader is the record the reader builds for
  them: its kind, data position, size and id. Nothing is claimed about
  resolving a delta chain, including cycles.
- `ObjectId`'s internals are left out. An id is its 20 bytes, and
  `compareTo(data, pos)` is modelled as unsigned lexicographic comparison
  with the record's id bytes.
- Validating that the fan-out table is non-decreasing is left out, because
  the source does no such validation.
- The `UnionInputStreamTest` test class of the repository is left out,
  because it exercises a stream utility, not the pack reader.
- The arrays that `readIndexHeader` stores in each slot of `idxdata` are
  modelled as immutable byte sequences, because nothing writes to them after
  loading.
- Exception messages (the file name in the corrupt-index message, the
  version and type code in the text) are left out. The version number and
  the type code are kept in the error values.
