# siso box engine in Dafny

This project models `siso::box`, the box engine of ONVIF's `isosign` tool. The
engine reads and writes the object structure of the ISO base media file format
(ISO/IEC 14496-12, section 4.2, "Object Structure") and QuickTime atoms. It
supports only the compact header: a big-endian 32-bit size (header included),
then the 4-byte type code.

A box handle records a type code, a size and the offset of its header. It also
points to its parent. The file itself is the root box: tag 0, no header, and
the size the file had when it was opened. The engine offers these operations:

- traversal: `first`, `next`, `next(tag)` and `operator[]`;
- a header read (the private constructor `box(offset, parent)`);
- writing: `append` (a new child, or raw bytes), `update`, `writeHeader`,
  `write` and `clear`;
- reading: `read`;
- `resize`: after a write, it grows the box and each tagged ancestor and
  rewrites each stored size field;
- `isLast`, and the byte-order helpers `swap32` and `swap64`.

The model is split into five modules:

- `Codec` (`codec.dfy`): `swap32` and `swap64` over bounded integers; big-endian
  encoding and decoding; the link between the two on a little-endian host.
- `Stream` (`stream.dfy`): the byte stream as `fseek`, `fwrite` and `fread` see
  it. The file is a `seq<Byte>` (`Byte` is the integers 0 to 255). The device
  holds at most `limit` bytes. A write that passes `limit` is short: it stores
  only the bytes that fit, and that is how a write fails. Writing past the end
  of the file zero-fills the gap. Reading past the end yields fewer bytes.
- `Siso` (`siso.dfy`), made of two parts:
  - Box handles are values. `Node` holds tag, size and offset. `Box` adds the
    ancestor chain (nearest first, ending with the file) and whether the handle
    holds the open stream. The module also has pure functions for the header
    read, `next()`, the sibling walk, `isLast`, the resize of a chain
    (`Propagate`) and the two appends.
  - The class `File` holds the file's bytes. Its methods are the source's
    operations, each proved against those functions: `clear` keeps its
    32-byte chunk loop, and `first` and `next(tag)` keep their sibling loops.
- `SisoProperties` (`properties.dfy`): lemmas connecting the operations.
- `SisoFindings` (`findings.dfy`): two places where the code does not do what
  its documentation says, each shown on a concrete input, with a corrected
  definition beside it.

The source comments `isLast` as "last in file". The code compares the box's
end with the root box's size, which is recorded when the file is opened.
`resize` never grows that size, because it does nothing for tag 0. So a child
appended to an empty file is not last. The model follows the code
(`Siso.IsLast`, `SisoProperties.AppendChildIsLast`). The test that matches the
comment is `SisoFindings.IsLastInFile`.

## Model

| member | source | states |
|---|---|---|
| Codec.Swap32Reverses | src/siso.h:137-139 | the host bytes of `swap32(x)` are the host bytes of `x` in reverse order |
| Codec.Swap32Involution | src/siso.h:137-139 | `swap32(swap32(x)) == x` |
| Codec.Swap64Halves | src/siso.h:141-145 | the low word of `swap64(x)` is the swapped high word of `x` and the high word is the swapped low word |
| Codec.Swap64Reverses | src/siso.h:141-145 | on a little-endian host, byte `i` of `swap64(x)` is byte `7 - i` of `x` |
| Codec.Swap64Involution | src/siso.h:141-145 | `swap64(swap64(x)) == x` |
| Codec.SwappedIsBigEndian | src/siso.h:158 | what `swap32` leaves in host memory is the big-endian form of the value, so `writeHeader` writes network byte order |
| Codec.SwappedRoundTrip | src/siso.h:155 | swapping what a raw read gives back from swapped bytes yields the original value |
| Codec.HostBytes32RoundTrip | src/siso.h:152-155 | a 32-bit word read back from the host bytes of a value is that value |
| Codec.FromHostBytes32 | src/siso.h:152-155 | the word read from four host bytes has exactly those bytes |
| Codec.BigEndianRoundTrip | src/siso.h:151-160 | decoding the big-endian bytes of a value that fits gives the value |
| Codec.FromBigEndianRoundTrip | src/siso.h:151-156 | encoding a decoded byte sequence again gives the same bytes |
| Codec.BigEndianIsSwapped | src/siso.h:158 | the 4 big-endian bytes of `x` are the host bytes of `swap32(x)` |
| Codec.FromBigEndianIsSwapped | src/siso.h:155 | decoding 4 bytes big-endian equals `swap32` of the host word they hold |
| Stream.Accepted | src/siso.h:173 | `fwrite` stores at most what was asked, and stores all of it exactly when the write fits below the device's capacity; a non-empty count never passes the capacity, and a short one reaches it |
| Stream.Readable | src/siso.h:123 | `fread` gets at most what was asked and never reads past the end of the file; a short count ends at the end of the file |
| Stream.PutAt | src/siso.h:172-173 | after a write of `w` at `pos`, each byte is from `w` inside the written range, the old byte below the old end, and zero in a gap; the length is the larger of the old end and the end of the write |
| Stream.StoredAt | src/siso.h:172-173 | the same, for the prefix the device accepts |
| Stream.StoredLength | src/siso.h:172-173 | a write never shortens the file, and keeps its length when it stays inside it |
| Stream.StoredFrame | src/siso.h:172-173 | a write changes no byte outside its range |
| Stream.FetchStored | src/siso.h:172-173 | a write that fits reads back unchanged |
| Stream.PutConcat | src/siso.h:178-179 | writing `w1` and then `w2` right after it gives the same file as writing `w1 + w2` |
| Stream.StoredConcat | src/siso.h:178-179 | two writes, the second where the first stopped, store the same file as one write of both |
| Stream.StoredTwice | src/siso.h:85-87 | after two back-to-back writes that fit, both read back in place, and a write at or past the end of the file ends the file exactly there |
| Stream.AcceptedConcat | src/siso.h:178-179 | the counts of back-to-back writes add up to the count of one write of both |
| Stream.FitsAfter | src/siso.h:178-179 | a non-empty write that starts where an earlier one stopped is stored in full exactly when both together would be |
| Stream.ZerosStep | src/siso.h:178-179 | zeros written in two runs, the second where the first stopped, give the same file as one run, and the last run fits exactly when the whole run does |
| Siso.Siblings | src/siso.h:61 | every box of a sibling walk exists and shares the first box's parent; every later box starts after the first and before the parent's end |
| Siso.SiblingsContiguous | src/siso.h:76 | each box of a walk starts exactly where the previous one ends |
| Siso.SiblingsStart | src/siso.h:61 | a walk is empty exactly when its first box is absent, and otherwise starts with that box |
| Siso.SiblingsAdvance | src/siso.h:70 | each box of a walk is followed by its `next()`, and the `next()` of the last box is absent |
| Siso.ReadCount | src/siso.h:119-124 | `read` copies nothing when `offset + 8 >= size`, otherwise at most `size - 8` bytes and never past the end of the file; it copies fewer than `bytes` clipped to `size - 8` only when the file ends first |
| Siso.File.Open | src/siso.h:42-51 | an opened file becomes a root box of tag 0 at offset 0 whose size is the file's length; a file that fails to open is an absent root |
| Siso.File.Put | src/siso.h:172-173 | `fwrite` stores the accepted prefix and returns its length |
| Siso.File.Get | src/siso.h:122-123 | `fread` returns the bytes the file has from the position on, no more than asked |
| Siso.File.Clear | src/siso.h:175-180 | `clear` leaves the file as one write of `bytes` zeros; under the capacity model, the result is 0 exactly when all of them fit, although only the last chunk's result is checked |
| Siso.File.Write | src/siso.h:170-174 | `write` stores the buffer's bytes, or zeros for a null buffer, and returns 0 exactly when all fit, else -1 |
| Siso.File.WriteHeader | src/siso.h:157-160 | `writeHeader` stores the size modulo 2^32 and then the tag, both big-endian, at the box's offset |
| Siso.File.Resize | src/siso.h:162-169 | the new file bytes, the result code and the grown handle are those of a resize of the whole chain, which stops at the file or at the first failed write |
| Siso.File.Append | src/siso.h:84-90 | `append(tag, P, data)` leaves the file, child and grown box of `AppendChild`: the header, the payload if `P > 0`, then the resize by `P + 8` |
| Siso.File.AppendBytes | src/siso.h:97-100 | `append(data, bytes)` writes at the box's end and then resizes by `bytes`; the result code is the resize's |
| Siso.File.Update | src/siso.h:108-111 | -1 and no change when `offset + 8 + bytes > size`; otherwise the bytes land after the header at `offset`, no other byte changes, and the file's length is kept when the box lies inside it |
| Siso.File.Read | src/siso.h:119-124 | `read` copies `ReadCount` bytes, starting right after the header at `offset` |
| Siso.File.ReadHeader | src/siso.h:151-156 | the header constructor gives the box whose size and tag are the big-endian words at `offset`; bytes past the end of the file read as zero |
| Siso.File.NextSibling | src/siso.h:76 | `next()` reads the box at this box's end while that is before the parent's end, otherwise it is the sentinel; the box found has the same parents |
| Siso.File.First | src/siso.h:58-64 | the sentinel when the start (`offset + 8 + extra`, or 0 for the file) is not before this box's end; otherwise the earliest box of the walk from the start with the tag (any box for tag 0), or the sentinel |
| Siso.File.Index | src/siso.h:128 | `operator[](type)` is `first(type)` |
| Siso.File.NextTagged | src/siso.h:69-72 | `next(tag)` is the earliest later sibling whose tag equals `tag`, or the sentinel |
| SisoProperties.HeaderDecode | src/siso.h:151-156 | header bytes that came from `writeHeader` decode to the tag and the size modulo 2^32 |
| SisoProperties.HeaderRoundTrip | src/siso.h:151-160 | after `writeHeader` fits, reading the header back gives the same tag, the size modulo 2^32, and the same offset |
| SisoProperties.HeaderBytesSwapped | src/siso.h:157-158 | the header is `swap32` of the size field and of the tag as the host keeps them, and each half is the big-endian word |
| SisoProperties.GrowsShift | src/siso.h:167 | past a tagged head whose size write fits, the levels a resize reaches shift by one |
| SisoProperties.PropagateSizes | src/siso.h:162-169 | level `i` of a chain grows by `delta` exactly when the resize reaches it, and otherwise keeps its size |
| SisoProperties.PropagateStatus | src/siso.h:166 | `resize` returns -1 exactly when it reaches a level whose size write does not fit, else 0 |
| SisoProperties.WriteFailsShift | src/siso.h:166-167 | past a tagged head whose write fits, a resize fails exactly when the rest of the walk does |
| SisoProperties.PropagateFrame | src/siso.h:165-166 | a resize changes no byte of the file outside the size fields it rewrites |
| SisoProperties.PropagateLength | src/siso.h:165-166 | a resize never shortens the file, and keeps its length when every field it writes is inside the file |
| SisoProperties.OffsetsBelow | src/siso.h:85 | along a nested chain every tagged ancestor's header starts at least 8 bytes before the head |
| SisoProperties.PropagateHeadField | src/siso.h:165-166 | the head's new size field survives the writes higher up the chain |
| SisoProperties.TailMissesHead | src/siso.h:167 | no size field higher up a nested chain overlaps the head's size field |
| SisoProperties.PropagateHeadRead | src/siso.h:165-166 | a header read at the head sees its new size modulo 2^32 |
| SisoProperties.PropagateSizeFields | src/siso.h:162-169 | every level a resize reaches and whose write fits reads back its new size modulo 2^32 |
| SisoProperties.SizeFieldDecode | src/siso.h:165-166 | four bytes from a size write decode to the size modulo 2^32 |
| SisoProperties.FieldsBelowEnd | src/siso.h:162-169 | every size field a resize of a nested chain rewrites lies before the end of the head box |
| SisoProperties.PropagateKeepsTail | src/siso.h:162-169 | a resize leaves each byte from the end of the head box onwards as it was |
| SisoProperties.PropagateKeepsRange | src/siso.h:162-169 | the same, for a range of bytes |
| SisoProperties.PropagateKeepsLength | src/siso.h:162-169 | a resize of a nested chain inside the file keeps the file's length |
| SisoProperties.StagedLayout | src/siso.h:85-87 | after the header write and the payload write, the header is at the box's end and the payload follows it |
| SisoProperties.PropagateKeepsStaged | src/siso.h:88 | the child's header and payload survive the resize, and so does the file's length |
| SisoProperties.AppendChildLayout | src/siso.h:84-90 | the child has size `P + 8` at the box's old end; its big-endian header and its payload (or zeros) are in the file; appending at the end of the file grows it by exactly `P + 8` |
| SisoProperties.AppendThenRead | src/siso.h:84-124 | after `append(tag, P, data)` on a nested chain whose bytes fit, `read(0, buf, P)` on the returned child copies all `P` bytes, and they are the appended payload (or zeros) |
| SisoProperties.AppendChildReadBack | src/siso.h:84-90 | reading a header at the new child's offset, under the grown box, gives the returned child with its size modulo 2^32 |
| SisoProperties.AppendChildGrows | src/siso.h:84-90 | the child's parents are the grown chain, and each level grows by `P + 8` exactly when the resize reaches it |
| SisoProperties.AppendChildSizeFields | src/siso.h:84-90 | every level the resize reaches and whose write fits has its size field rewritten, grown by `P + 8`, modulo 2^32 |
| SisoProperties.NestedShape | src/siso.h:164-167 | whether a chain is nested depends only on its tags and offsets, so a resize, which changes only sizes, keeps it nested |
| SisoProperties.FirstChildNested | src/siso.h:59-61 | the first box `first` reads inside a box on a nested chain is on a nested chain |
| SisoProperties.SiblingsNested | src/siso.h:61 | every box of a sibling walk from a box on a nested chain is on a nested chain |
| SisoProperties.EarliestNested | src/siso.h:61 | the box a sibling search returns from a nested chain, when it is not the sentinel, is on a nested chain |
| SisoProperties.FirstNested | src/siso.h:58-64 | what `first(tag, extra)` returns inside a box on a nested chain is on a nested chain |
| SisoProperties.NextNested | src/siso.h:76 | `next()` of a box on a nested chain is on a nested chain |
| SisoProperties.NextTaggedNested | src/siso.h:69-72 | what `next(tag)` returns from a box on a nested chain is on a nested chain |
| SisoProperties.AppendChildNested | src/siso.h:84-90 | `append(tag, P, data)` on a box of a nested chain that is the file or holds at least its header leaves the grown box and the new child on nested chains, and the child holds at least 4 bytes |
| SisoProperties.AppendRawEffect | src/siso.h:97-100 | the bytes land at the box's old end and survive the resize; each level grows by `bytes` exactly when reached; the result is -1 exactly when a reached size write does not fit |
| SisoProperties.AppendChildIsLast | src/siso.h:130-133 | after `append`, the chain's top is unchanged, and the child is last exactly when its end equals the file's size at open time |
| SisoFindings.AppendToEmptyFile | src/siso.h:130-133 | on an empty file, appending `TEST` with payload `[1,2,3,4]` at the root gives exactly the 12 bytes `00 00 00 0C 54 45 53 54 01 02 03 04`, but `isLast` is false for the child |
| SisoFindings.EmptyFileLayout | src/siso.h:84-90 | appending to an empty file at the root leaves exactly the child's header and payload, and `isLast` is false for the child |
| SisoFindings.AppendChildLastInFile | src/siso.h:130-133 | with the corrected test, a child appended at the end of the file is last |
| SisoFindings.IsLastAgrees | src/siso.h:130-133 | while the file still has its open-time length, `isLast` and the corrected test agree |
| SisoFindings.AppendToEmptyFileIsLast | src/siso.h:130-133 | on the empty file, the corrected test reports the appended child as last |
| SisoFindings.ReadPastBoxEnd | src/siso.h:121 | reading 8 bytes at payload offset 4 of a 16-byte box copies 8 bytes, the last 4 past the box's end |
| SisoFindings.ClippedReadCount | src/siso.h:119-124 | a corrected count never exceeds `bytes`, a non-zero count stays inside the box and inside the file, and a count below the clipped request means the file ended |
| SisoFindings.ClippedReadIsMaximal | src/siso.h:119-124 | the corrected count is the least of `bytes`, the payload left after `offset`, and the file left after the read position |
| SisoFindings.ClippedReadAgreesAtStart | src/siso.h:121 | at payload offset 0 the corrected count equals the count `read` computes |

The pure functions of `Siso` and `Codec` carry no contract of their own; the
rows above state what they compute. `Codec.Swap32` and `Codec.Swap64`
(src/siso.h:137-145) are covered by `Codec.Swap32Reverses`,
`Codec.Swap32Involution`, `Codec.Swap64Halves`, `Codec.Swap64Reverses` and
`Codec.Swap64Involution`. `Siso.IsLast` (src/siso.h:130-133) is covered by
`SisoProperties.AppendChildIsLast` and `SisoFindings.IsLastAgrees`.
`Siso.Box.Exists` (src/siso.h:126) is covered by `Siso.SiblingsStart` and
`Siso.Siblings`, and `Siso.Node.End` (src/siso.h:181) by
`Siso.SiblingsContiguous` and `Siso.File.NextSibling`. `Siso.HeaderBox` and
`Siso.Next` are covered by `Siso.File.ReadHeader`, `Siso.File.NextSibling` and
`SisoProperties.HeaderDecode`. `Siso.Propagate` is covered by
`Siso.File.Resize` and the `SisoProperties.Propagate…` rows.
`Siso.AppendChild` and `Siso.AppendRaw` are covered by `Siso.File.Append`,
`Siso.File.AppendBytes` and the `SisoProperties.AppendChild…` and
`SisoProperties.AppendRawEffect` rows.

Several lemmas are proof helpers that only unfold a definition one step or
combine two facts, and have no row: `Siso.PropagateStep`, `Siso.EarliestAt`,
`Siso.EarliestNone`, `SisoProperties.PropagateTailRead`,
`SisoProperties.AppendChildField` and `SisoFindings.TwoParts`. The real
inductions are `Codec.BigEndianRoundTrip`, `Codec.FromBigEndianRoundTrip`,
`SisoProperties.PropagateSizes`, `SisoProperties.PropagateStatus`,
`SisoProperties.PropagateFrame` and `SisoProperties.NestedShape`.

## Left out

- `src/isosign.cpp` is not part of this model. It holds the command line, the OpenSSL call through `system()`, file reading and time conversion.
- `fopen`, `fseek` and `fclose` become the in-memory byte sequence of `File`, with a device capacity as the only way a write fails. Other I/O errors, `flush()` and the destructor's closing of the stream are not modelled.
- Opening: the root's size comes from the contents passed to `File.Open`; the seek to the end that finds it is not modelled.
- A handle's parent is the value chain `parents`, not a pointer. `resize` changing a parent's `m_size` in place is modelled by returning the grown handle (`grown`). The model does not capture other handles that alias the same parent, or stale handles.
- `size_t` is an unbounded natural number: offsets and sizes do not wrap at 2^64. The stored size field is taken modulo 2^32, as `swap32` takes a `uint32_t`.
- Header reads past the end of the file: the source leaves the header words uninitialised there; the model reads those bytes as zero.
- The union split in `swap64` is modelled for a little-endian host only.
- 64-bit `largesize` headers are not in the source and not in the model.
- Concurrency: the engine has none.
- Stream.Content: the source copies `payloadSize` bytes from whatever the pointer points at. The model requires the buffer to hold at least that many bytes; reading past a caller's buffer is not modelled.
- Siso.File.Append, Siso.File.AppendBytes: the source documents "works only for last item in file" but does not check it; the lemmas about the layout assume a nested chain (`Nested`, which the root has and `first`, `next` and `append` keep) and say nothing about boxes further on that an append in the middle overwrites.
- SisoProperties.AppendChildLayout, SisoProperties.AppendRawEffect and the other layout and size-field lemmas also require the head box to be the file or to hold at least 4 bytes (8 for `SisoProperties.AppendChildNested`); a malformed box read from the file with a smaller recorded size is not covered by them.
- Siso.File.Clear: the source ignores the result of every chunk but the last. In the model a write fails only by passing the device's capacity, so an earlier chunk cannot fail on its own while a later one succeeds; such an isolated failure, which the source would swallow and report as 0, is not modelled.
- The `read` method keeps the clip to `size - 8` of the code as written; the corrected count (`SisoFindings.ClippedReadCount`) is proved about separately and not used by it.

## Findings

| source | as written | input that shows it | evidently intended | confidence | as-written member | corrected member |
|---|---|---|---|---|---|---|
| src/siso.h:130-133 | `isLast` compares the box's end with the root's `m_size`, set when the file is opened and never grown (`resize` does nothing for tag 0) | empty file; at the root, `append('TEST', 4, [1,2,3,4])`: the file is 12 bytes and the child ends at 12, but the root's size is 0, so `isLast` is false | true when the box ends where the file currently ends | not executed | SisoFindings.AppendToEmptyFile | SisoFindings.AppendChildLastInFile |
| src/siso.h:121 | `read` clips `bytes` to `m_size - 8`, the whole payload, whatever `offset` is | a 16-byte box followed by other data; `read(4, buf, 8)` copies 8 bytes, the last 4 from past the box's end | clip to `m_size - 8 - offset`, the payload left after `offset` | not executed | SisoFindings.ReadPastBoxEnd | SisoFindings.ClippedReadCount |
