# A verified model of the pak archive writer of `paker.py`

`paker.py` builds Unreal Engine `.pak` archives (version 3) for a map mod. It
takes a dict of `{archive path: bytes}` and writes one *record* per file,
sorted by path. A record is a 48-byte header and then the content:
- raw: a 5-byte marker and the payload;
- compressed: zlib blocks of 64 KiB, behind a block-offset table patched in afterwards.

After the records comes the *index*:
- the mount-point path `..\..\..\` and the file count;
- one `(path, entry)` pair per record; an entry repeats the record's header fields and its offset;
- a 44-byte footer: magic `0x5A6F12E1`, version 3, the index's offset and size, and the SHA-1 of the index body.

The texture front end does three things before calling `pak`:
- it resolves texture names case-insensitively against a table of known headers;
- it rejects textures whose length is not 3637248 bytes;
- it wraps each texture into a `.uasset` (header, texture, fixed 28-byte footer) and adds the world-map background.

The model is written in Dafny and follows the program's structure:

| module | file | models |
|---|---|---|
| `Bytes` | `bytes.dfy` | bytes, `struct.pack` of little-endian `u32`/`u64`, joining, SHA-1 and zlib as parameters |
| `Streams` | `streams.dfy` | a binary file opened for writing: `write`, `seek`, `tell`, zero-filling past the end |
| `PathEncoding` | `path_encoding.dfy` | `_pack_path`: separator replacement, UTF-8, NUL, length prefix |
| `Content` | `content.dfy` | `_write_data` and `_write_data_zlib` with their block loop and table back-patch |
| `Records` | `records.dfy` | `_write_record`: placeholder header, content, header patch, returned entry |
| `Index` | `index.dfy` | `_write_index`: header, pair loop, footer |
| `Archive` | `archive.dfy` | `pak`: sorting, output naming, the record loop, the whole file |
| `Textures` | `textures.dfy` | `_HEADERS_LOWER`, `_fix_key`, `_get_header`, `_gen_uasset`, and the files dict of `pak_textures_bc7` |

The code that writes works on a `Stream` class whose methods change its
`data` and `pos` fields. Each writer method is proved against a function that
gives the bytes it leaves behind for its inputs: `RecordBytes`, `IndexBytes`,
`ArchiveBytes`, and so on. Lemmas then prove what those bytes mean when read
back.

The reading side (`FromLE`, `ReadU32`, `ReadU64`, `DecodeUtf8`, `UnpackPath`)
is not in the program. It is written here as an independent reference, so that
the written layouts can be stated as round trips.

The files dict is a sequence of `(key, value)` items in insertion order. A
dict assignment `d[k] = v` is `Put`.

## Model

| member | source | states |
|---|---|---|
| Bytes.Zeros | paker.py:131 | `n` padding bytes, every one zero |
| Bytes.LE | paker.py:79 | a little-endian field of width `w` is exactly `w` bytes |
| Bytes.FromLEOfLE | paker.py:79 | reading back a field gives the value, for every value that fits the width |
| Bytes.FromLEBound | paker.py:79 | a little-endian field of `w` bytes reads as a value below 256^w |
| Bytes.LEOfFromLE | paker.py:79 | re-encoding the value read from any byte string gives that string back |
| Bytes.U32 | paker.py:79 | `pack("<I", x)` is 4 bytes |
| Bytes.U64 | paker.py:146 | `pack("<Q", x)` is 8 bytes |
| Bytes.U32RoundTrip | paker.py:79 | a packed `u32` below 2^32 reads back as itself |
| Bytes.U32Small | paker.py:166 | a count below 256 packs to itself and three zero bytes |
| Bytes.U64RoundTrip | paker.py:146 | a packed `u64` below 2^64 reads back as itself |
| Bytes.ReadU32At | paker.py:93 | a `u32` written at offset `off` of a buffer reads back there as the value written |
| Bytes.ReadU64At | paker.py:146 | a `u64` written at offset `off` of a buffer reads back there as the value written |
| Bytes.U64s | paker.py:122 | `pack("<%dQ", *xs)` is 8 bytes per value |
| Bytes.U64sAt | paker.py:122 | slot `i` of a packed `u64` array holds `pack("<Q", xs[i])` |
| Bytes.ConcatAppend | paker.py:116-117 | writing or hashing one more piece appends it to the joined bytes |
| Bytes.ConcatSplit | paker.py:116-117 | joining is associative across any split of the pieces |
| Bytes.ConcatAt | paker.py:116-117 | piece `i` lies in the joined bytes right after the pieces before it |
| Streams.Overwrite | paker.py:84 | a write leaves the file as long as the longer of the old file and the written range |
| Streams.OverwriteFrame | paker.py:145-149 | a write leaves every byte outside its range unchanged |
| Streams.OverwriteAtEnd | paker.py:84 | writing at the end of the file appends |
| Streams.SeekPastEndZeroFills | paker.py:94 | a write after seeking past the end zero-fills the gap |
| Streams.OverwriteAdjacent | paker.py:169-178 | two writes, the second starting where the first ended, are one write of both |
| Streams.OverwriteFillGap | paker.py:93-123 | write, skip a gap, write, then seek back and fill the gap: the same as one write of all three in order |
| Streams.OverwritePatch | paker.py:145-149 | rewriting bytes inside an earlier write edits just those bytes of it |
| Streams.OverwriteTableFill | paker.py:93-123 | the count, skipped table, trailer and blocks, with the table filled in last, are one write of count, table, trailer and blocks |
| Streams.OverwriteEmpty | paker.py:84 | writing nothing inside the file changes nothing |
| Streams.Stream.constructor | paker.py:229 | a file opened with `"wb"` is empty and positioned at 0 |
| Streams.Stream.Write | paker.py:84 | `write` overwrites from the position, zero-filling any gap, and advances the position by the length |
| Streams.Stream.Seek | paker.py:121 | `seek(offset, 0)` moves the position and changes no byte |
| Streams.Stream.SeekCurrent | paker.py:94 | `seek(delta, 1)` moves the position forward and changes no byte |
| PathEncoding.ReplaceSep | paker.py:78 | every separator becomes `/` and every other character is kept, in place |
| PathEncoding.Utf8Char | paker.py:78 | one character encodes to 1 to 4 bytes |
| PathEncoding.Utf8 | paker.py:78 | definition: `str.encode("utf-8")`, character by character; `DecodeUtf8OfUtf8` proves it decodes back, `Utf8HasNoNul` that it has no zero byte |
| PathEncoding.DecodeChar | paker.py:78 | the reference decoder consumes between 1 byte and the whole input |
| PathEncoding.DecodeCharOfUtf8Char | paker.py:78 | decoding a character's UTF-8, whatever follows it, gives back the character and its length |
| PathEncoding.DecodeUtf8OfUtf8 | paker.py:78 | decoding the UTF-8 of any string gives back the string |
| PathEncoding.Utf8HasNoNul | paker.py:78 | the UTF-8 of a string without NUL characters has no zero byte, so the terminating NUL is unambiguous |
| PathEncoding.Utf8OfAscii | paker.py:78 | ASCII text encodes to its own code points, one byte per character |
| PathEncoding.EncodedPath | paker.py:78 | the stored path bytes are never empty: at least the NUL |
| PathEncoding.PackPath | paker.py:77-79 | a packed path is its encoded bytes behind a 4-byte prefix |
| PathEncoding.UnpackPath | paker.py:77-79 | the reference reader never claims more bytes than it was given |
| PathEncoding.PackPathLayout | paker.py:77-79 | the prefix is the count of the bytes after it; those bytes are the UTF-8 of the separator-normalised path, then NUL |
| PathEncoding.UnpackPackPath | paker.py:77-79 | a packed path, whatever follows it, unpacks to the normalised path and its packed length |
| PathEncoding.PackAscii | paker.py:77-79 | a path whose normalised characters are the ASCII bytes `b` packs to the length of `b` plus one, then `b`, then NUL |
| Content.Chunk | paker.py:108 | every block is non-empty and at most 65536 bytes |
| Content.BlockCount | paker.py:90 | definition: `(size + buf_size - 1) // buf_size`, the ceiling of `size / 65536`; `ChunkSizes` and `ChunksPartition` prove the blocks it counts are full but the last and cover the data exactly |
| Content.Chunks | paker.py:107-108 | there are `ceil(size / 65536)` blocks, block `i` being slice `i` |
| Content.CompressedChunks | paker.py:107-109 | one compressed block per block, in order |
| Content.BlockPairs | paker.py:112-114 | one (start, end) pair per block |
| Content.Flat | paker.py:101 | the flat table has two slots per pair |
| Content.BlockTable | paker.py:101-114 | `compress_blocks` has two slots per block |
| Content.FirstBlockStart | paker.py:99 | definition: the offset of the first compressed block, past the count, the `2 * block_count` slots and the 5-byte trailer; `LayoutBlock` proves block `i` is found at the offsets in the table that starts there |
| Content.ZlibLayout | paker.py:87-123 | the compressed content is the count, table and trailer, then exactly the compressed blocks |
| Content.ZlibBody | paker.py:87-123 | definition: the bytes `_write_data_zlib` leaves after offset `base`, the layout of the compressed chunks of the data; `ZlibWritten` proves the writes of the function produce it and `WriteDataZlib` that the method writes it |
| Content.ChunksPrefix | paker.py:107-108 | the first `k` blocks joined are the first `min(65536k, size)` payload bytes |
| Content.ChunksPartition | paker.py:107-108 | the blocks joined in order are exactly the payload |
| Content.ChunkSizes | paker.py:88-108 | every block but the last is full, and the last holds the remainder |
| Content.EightyThousandBytes | paker.py:88-108 | an 80000-byte payload makes blocks of 65536 and 14464 bytes |
| Content.OffsetIsConcatLength | paker.py:111-113 | the running offset after `k` blocks is the length of those blocks joined |
| Content.BlockInConcat | paker.py:111-117 | block `i` lies between the running offsets `i` and `i + 1` of the joined blocks |
| Content.FlatAt | paker.py:112-114 | slots `2k` and `2k + 1` hold pair `k` |
| Content.FlatOfPairs | paker.py:101-114 | a table whose every slot pair is given is the flattening of those pairs |
| Content.BlockTableAt | paker.py:112-114 | block `i`'s slots hold the first block start plus the running offsets `i` and `i + 1` |
| Content.BlockTableShape | paker.py:99-114 | the blocks are described end to end from the first start; the last ends the compressed size after it |
| Content.LayoutCount | paker.py:93 | the content starts with the block count |
| Content.LayoutSlot | paker.py:112-122 | table slot `i` of the written content holds block `i`'s start and end |
| Content.LayoutBlock | paker.py:107-123 | the bytes between block `i`'s start and end offsets, in the file, are compressed block `i` |
| Content.PairsAgreeAll | paker.py:112-114 | a table that agrees with the block table on every pair is the block table |
| Content.ZlibLoopStep | paker.py:107-117 | one round of the block loop grows the table, the hashed bytes and the file by block `i` |
| Content.TrailerBytes | paker.py:96 | the trailer written after the table is a zero byte, then the block size 65536 as a `u32` |
| Content.ZlibWritten | paker.py:93-123 | the count, the skipped table, the trailer and the blocks, with the table filled in last, leave `ZlibBody` at the base offset |
| Content.WriteData | paker.py:81-85 | the payload is written verbatim at the position; returns its length and the SHA-1 of the payload |
| Content.WriteBlocks | paker.py:107-117 | the blocks are written in order from the position; returns their absolute (start, end) table, the joined blocks and their length |
| Content.WriteBlockHead | paker.py:93-97 | writes the block count, skips the table, then writes the trailer; the position ends after the trailer |
| Content.PatchBlockTable | paker.py:119-123 | writes the table at `base + 4` and returns to the position it started from |
| Content.WriteDataZlib | paker.py:87-125 | leaves `ZlibBody` at the position, with the position at its end; returns the block count, the table, the compressed size and the SHA-1 of the compressed blocks alone |
| Records.PlaceholderHeader | paker.py:131 | the first header written is 48 bytes |
| Records.Flag | paker.py:131 | definition: `int(compress)`, 1 for zlib and 0 for stored; `RecordLayout` proves it sits at bytes 24-28 of the header and `EntryMatchesRecord` in the entry |
| Records.EntryTail | paker.py:156-159 | definition: the part of the entry after the digest, the block count, the block table and `pack("<BI", 0, 65536)` when compressing, else `pack("<BI", 0, 0)`; `EntryMatchesRecord` proves its length and that it equals the record's own bytes after the header |
| Records.Header | paker.py:131-149 | the patched header is 48 bytes |
| Records.HeaderPatchOnly | paker.py:145-149 | the final header differs from the placeholder only in the stored-size field `[8, 16)` and the hash field `[28, 48)` |
| Records.HeaderFields | paker.py:131-149 | a header reads as 8 zero bytes, stored size, size, mode flag and hash, then the content |
| Records.RecordBytes | paker.py:127-151 | definition: the record `_write_record` leaves in the file, the patched header then the content; `RecordLayout` proves where each header field and the stored data sit in it |
| Records.RecordLayout | paker.py:127-151 | a record is the header, the entry's tail and the stored bytes; its fields decode to stored size, size, flag and hash, and the hash is the SHA-1 of the stored bytes that follow |
| Records.ContentSplits | paker.py:134-141 | the content is the entry's tail followed by the raw payload or the compressed blocks |
| Records.RawTrailerBytes | paker.py:139 | the raw marker is a zero byte, then a zero `u32` |
| Records.EntryMatchesRecord | paker.py:153-160 | the returned entry is the record's offset followed by its header after byte 8 and its tail: 5 tail bytes raw, `4 + 16n + 5` compressed |
| Records.EntryShape | paker.py:153-160 | the entry fields are the header's fields after its first 8 bytes, then the tail |
| Records.EntryBytes | paker.py:153-160 | definition: the index entry `_write_record` returns; `EntryMatchesRecord` proves it is the record offset followed by the record's own bytes from 8 to the end of the tail |
| Records.HeaderPatch | paker.py:145-149 | the two patch writes turn the placeholder header into the final one |
| Records.WriteContent | paker.py:134-141 | writes the raw marker and payload, or the compressed content; returns the stored size, the hash and the entry's tail |
| Records.PatchHeader | paker.py:143-151 | writes the stored size at `r + 8` and the hash at `r + 28`, then returns to the end of the data |
| Records.WriteRecord | paker.py:127-160 | leaves `RecordBytes` at the record's offset, with the position at its end; returns that record's entry |
| Index.PairsBytes | paker.py:171-179 | one packed path-and-entry pair per record, in list order |
| Index.FooterHead | paker.py:182 | the footer's first 8 bytes are the magic and the version as `u32`s |
| Index.RootPacked | paker.py:166 | the packed mount point spelled out byte by byte is `_pack_path("..\\..\\..\\")` for every separator |
| Index.IndexHeader | paker.py:166 | definition: the packed root `..\..\..\` then the record count; `RootPacked` gives its bytes and `IndexPairAt` places the pairs after it |
| Index.PairBytes | paker.py:172-178 | definition: one index pair, the packed file name then its entry; `UnpackPair` proves the name unpacks back and the entry follows it |
| Index.Footer | paker.py:182-183 | the footer is 44 bytes |
| Index.IndexBytes | paker.py:162-183 | definition: the index `_write_index` appends, the header, the pairs, then the footer; `IndexSelfConsistent` proves the footer holds the body's length and digest and `WriteIndex` that the method writes it |
| Index.IndexWritten | paker.py:166-183 | the body written at the offset, then the footer after it, leave the index bytes there |
| Index.FooterFields | paker.py:182-183 | the footer reads back as magic `0x5A6F12E1`, version 3, the index offset, the index size and the hash |
| Index.IndexSelfConsistent | paker.py:164-183 | the index's last 44 bytes are its footer; its size field counts exactly the bytes before it and its hash is their SHA-1 |
| Index.EmptyIndex | paker.py:166-183 | an empty record list gives the mount point, count 0 and the footer |
| Index.IndexPairAt | paker.py:171-179 | pair `k` sits after the header and the pairs before it; it unpacks to the normalised name, followed by its entry |
| Index.PairAfter | paker.py:171-179 | the same for any header and any pieces whose piece `k` is a pair |
| Index.UnpackPair | paker.py:172-178 | a pair, whatever follows it, unpacks to its normalised name, with its entry right after the path |
| Index.IndexLoopStep | paker.py:171-179 | one round of the pair loop grows the hashed bytes and the file by the path and the entry |
| Index.WritePair | paker.py:172-179 | writes the packed path and then the entry at the position, and appends both to the hashed bytes and to `index_size` |
| Index.WritePairs | paker.py:171-179 | the pairs are written after the header; returns exactly the bytes hashed and their count as `index_size` |
| Index.WriteFooter | paker.py:181-183 | the footer is written at the position, over the hashed bytes' offset, length and SHA-1 |
| Index.WriteIndex | paker.py:162-183 | leaves `IndexBytes` at the current offset, with the position at its end |
| Archive.StrLess | paker.py:225 | definition: the order `sorted` uses on the path strings, code point by code point with a prefix first; `StrLessIrreflexive`, `StrLessTransitive` and `StrLessTotal` prove it a strict total order and `SortSorted` that the sort follows it |
| Archive.StrLessIrreflexive | paker.py:225 | no path sorts before itself |
| Archive.StrLessAsymmetric | paker.py:225 | no two paths sort before each other |
| Archive.StrLessTransitive | paker.py:225 | the path order is transitive |
| Archive.StrLessTotal | paker.py:225 | any two distinct paths are ordered |
| Archive.Insert | paker.py:225 | inserting adds exactly the one item |
| Archive.SortByKey | paker.py:225 | sorting neither adds nor drops an item: the result is a permutation |
| Archive.InsertSorted | paker.py:225 | inserting an item with a new path keeps the list strictly sorted |
| Archive.SortSorted | paker.py:225 | the sorted items of a dict are in strictly increasing path order |
| Archive.SortedUnique | paker.py:225 | two sorted lists with the same items are equal |
| Archive.SameHead | paker.py:225 | two sorted lists with the same items start alike |
| Archive.SortIndependent | paker.py:225 | dicts with the same items, filled in any order, sort to the same list |
| Archive.OutputName | paker.py:226-228 | the file name starts with `War-WindowsNoEditor_` and ends in `.pak` |
| Archive.OutputNamePlain | paker.py:226-228 | a name without `.pak` is kept whole between the prefix and the extension |
| Archive.OutputNameStripsOne | paker.py:226-228 | exactly one trailing `.pak` is stripped: `x.pak` and `x` name the same file |
| Archive.Lay | paker.py:229-235 | one index pair per file |
| Archive.LayPrefix | paker.py:229-235 | the records of the first `k` files begin the records of all of them |
| Archive.LayEntryAt | paker.py:229-235 | pair `i` is the file's path with the entry for the offset where its record starts |
| Archive.LayRecordAt | paker.py:229-235 | record `i` lies whole right after the records before it; pair `i` holds its entry |
| Archive.Layout | paker.py:229-235 | one index pair per file |
| Archive.LayoutStep | paker.py:231-234 | one more file appends its record and its pair |
| Archive.LayoutRecordAt | paker.py:229-235 | record `i` of the archive lies whole at `RecordOffset(i)`, record `i + 1` starts where it ends, and pair `i` is the path with the entry for that offset |
| Archive.ArchiveBytes | paker.py:229-236 | definition: the whole file, every record in sorted order then the index at the offset where they end; `Pak` proves the method writes it and `ArchiveRecordAt` that each entry points at its record |
| Archive.WriteRecords | paker.py:230-234 | the loop leaves exactly the records of all files, back to back from 0, and returns their pairs in order |
| Archive.Pak | paker.py:213-236 | returns `OutputName(output)` and leaves the records of the files sorted by path, then the index over their pairs |
| Archive.PakIndependent | paker.py:225 | two dicts with the same items give the same archive bytes |
| Archive.PakOrder | paker.py:225-234 | record and index pair `i` belong to the `i`-th path in ascending order, and the index lists paths in ascending order |
| Archive.ArchiveRecordAt | paker.py:229-236 | each entry's offset field names where its record lies in the file, and the index starts where the records end |
| Archive.EntryStartsWithOffset | paker.py:154-160 | an entry's first 8 bytes read as its record's offset |
| Archive.EmptyPak | paker.py:225-236 | an empty dict gives just the index over no records |
| Textures.Lower | paker.py:43 | lower-casing keeps the length and maps each character on its own |
| Textures.LowerAppend | paker.py:47-58 | lower-casing a joined spelling lower-cases each part |
| Textures.LoadHeaders | paker.py:35-39 | the module-load loop leaves the table `TableOf(headers)` |
| Textures.TableOf | paker.py:35-39 | definition: `_HEADERS_LOWER`, each name lower-cased and mapped to the name and its header, a later name replacing an earlier one; `TableOfKeys` and `TableOfLastWins` prove it |
| Textures.TableOfKeys | paker.py:35-39 | the loaded table is well formed and its keys are exactly the lower-cased header names |
| Textures.TableOfLastWins | paker.py:35-39 | of names that lower-case alike, the last one read is stored |
| Textures.Candidates | paker.py:42-62 | four spellings are tried |
| Textures.FixKey | paker.py:42-62 | a resolved name is a non-empty canonical name in the table; otherwise `Unknown texture name` for this name |
| Textures.FirstHitNone | paker.py:42-62 | there is no hit exactly when no spelling is a key with a non-empty canonical name |
| Textures.FirstHitAt | paker.py:42-62 | the hit is the canonical name of the first spelling that hits |
| Textures.FixKeyIsFirstHit | paker.py:42-62 | `_fix_key` returns the first hit among `name`, `Map+name`, `name+Hex`, `Map+name+Hex`, and raises when none hits |
| Textures.FixKeyCaseInsensitive | paker.py:42-62 | names that lower-case alike resolve alike |
| Textures.FixKeyFixed | paker.py:42-62 | in a well-formed table, a resolved name resolves to itself |
| Textures.GetHeader | paker.py:64-68 | found exactly when the lower-cased name is a key; the canonical name then lower-cases like the name |
| Textures.GenUasset | paker.py:70-75 | succeeds exactly when the name is known, otherwise `Unknown texture name` |
| Textures.UassetPath | paker.py:74-75 | definition: `War\Content\Textures\UI\HexMaps\Processed\{}.uasset` with the canonical name filled in; `UassetPathInjective` proves two names never share a path |
| Textures.GenUassetLayout | paker.py:70-75 | the path is the directory, the canonical name and `.uasset`; the bytes are the header, the texture and the 28-byte footer |
| Textures.UassetPathInjective | paker.py:74-75 | different canonical names give different paths |
| Textures.GenUassetAfterFixKey | paker.py:42-75 | in a well-formed table, `_gen_uasset` succeeds on every name `_fix_key` returns, at that name's path |
| Textures.Put | paker.py:265 | definition: `files[p] = b` on a dictionary kept in insertion order; `PutNew` and `PutReplaces` prove a new key is appended and an old one replaced in place while other entries stay, `PutKeeps` that it adds no other key |
| Textures.PutNew | paker.py:265 | assigning a new key appends it |
| Textures.PutReplaces | paker.py:265 | assigning a present key replaces its value in place and changes nothing else |
| Textures.PutKeys | paker.py:265 | an assignment adds no key but its own |
| Textures.PutDistinct | paker.py:265 | an assignment keeps the keys distinct, and its key is then present |
| Textures.PutKeeps | paker.py:271 | an assignment does not make another key present |
| Textures.FoldFailurePersists | paker.py:257-266 | once an item raises, later items change nothing |
| Textures.FoldSucceeds | paker.py:257-266 | when raising does not depend on the dict, the build succeeds exactly when no item raises |
| Textures.FoldFirstFailure | paker.py:257-266 | the error raised is that of the first item that raises |
| Textures.FoldDistinct | paker.py:257-266 | steps that keep keys distinct keep them distinct over the build |
| Textures.FixStepItem | paker.py:257 | one comprehension item fails exactly when `_fix_key` fails, with `Unknown texture name` for that name; a success stores the value under the canonical name, keeps the keys distinct and adds no key but that one |
| Textures.FixKeys | paker.py:257 | definition: `{_fix_key(k): v for k, v in mappings.items()}`, one `FixStepItem` per mapping; `FixKeysResult` and `FixKeysFirstFailure` state when and how it succeeds or fails |
| Textures.FixKeysResult | paker.py:257 | `fixed_mappings` is built exactly when every name resolves, and has distinct keys |
| Textures.FixKeysKnown | paker.py:257 | in a well-formed table every key of `fixed_mappings` is known to the table |
| Textures.FixKeysFirstFailure | paker.py:257 | a failing build raises for the first name that does not resolve |
| Textures.UassetStepItem | paker.py:261-265 | one loop round: a texture not 3637248 bytes long raises `Invalid texture size` before its name is looked up, an unknown name raises its error, and a success stores the `.uasset` under the canonical name's path, keeping keys distinct and adding no other key |
| Textures.UassetFiles | paker.py:259-265 | the texture loop gives the `Fold` of its rounds over `fixed_mappings`, returning at the first error |
| Textures.UassetFilesResult | paker.py:259-265 | the loop succeeds exactly when every texture is 3637248 bytes long and its name is known; its paths are distinct |
| Textures.UassetFilesFirstFailure | paker.py:262-263 | a texture of the wrong size, after textures that are fine, raises `Invalid texture size` |
| Textures.BgPathNotUasset | paker_config.py:28 | the background's path is no texture's path |
| Textures.TextureFiles | paker.py:257-271 | definition: the `files` dictionary `pak_textures_bc7` hands to `pak`, the `.uasset` of every texture and then the background asset; `TextureFilesSucceeds` and `TextureFilesShape` state when it is built and what it holds |
| Textures.TextureFilesSucceeds | paker.py:257-271 | in a well-formed table the files dict is built exactly when all names resolve and all textures have the right size |
| Textures.UassetFilesNoBg | paker.py:259-271 | the texture loop never stores anything at the background's path |
| Textures.TextureFilesShape | paker.py:257-271 | the dict handed to `pak` is the textures' `.uasset`s with the background appended, replacing none; its keys are distinct |
| Textures.PakTexturesBc7 | paker.py:239-273 | raises the build's error, or returns `pak`'s name and the archive of the files dict |

## Left out

- SHA-1 and zlib compression are foreign library calls. They are parameters (`Primitives`) with no modelled behaviour. A streaming hasher fed several `update` calls is the hash of their concatenation.
- File I/O is not modelled:
  - `open`, `close` and `with` blocks;
  - reading the header files at module load (their bytes are `LoadHeaders`'s input);
  - reading the background `.uasset` (its bytes are `PakTexturesBc7`'s `bg`);
  - `os.makedirs`.

  Progress printing and `time()` have no behaviour to state.
- `os.path.sep` is the parameter `sep`, a single character.
- `Archive.Pak` and `Textures.PakTexturesBc7` return the output file name, but `pak` and `pak_textures_bc7` return `None`. The returned name stands for the file that `open(output_full, "wb")` creates, and the returned stream for that file's contents.
- `struct.error` is not modelled as an error result. A value too wide for its field makes `struct.pack` raise; the model instead requires every packed value to fit (`RecordFits`, `ZlibFits`, `IndexFits`, `ArchiveFits`) and covers only archives that can be written.
- The `HEADERS` dict built at module load is never read by the core and is not part of this model.
- `Textures.Lower` lower-cases ASCII letters only. Python's `str.lower` also maps non-ASCII letters, so names differing in non-ASCII case may resolve differently here.
- Strings are sequences of Unicode scalar values. A Python string with a lone surrogate, which `encode("utf-8")` rejects, cannot be expressed.
- `Archive.SortByKey` compares items by path only. `sorted` on a dict's items compares whole `(key, value)` tuples, but the keys of a dict are distinct, so the values are never reached.
- `paker_config.py` (environment-variable paths and the coordinate table) is not part of this model, apart from the constant `BG_PATH`.
- The image and texture pipeline is not part of this model: `_image_into_mapping`, `pak_textures_nprgba`, `pak_textures_folder`, `pak_stitched`, PIL, numpy and the BC7 encoder.
