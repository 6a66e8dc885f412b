# A verified model of the `rsrc` resource-fork reader

`rsrc` reads the resource fork of a classic Macintosh file. It has two phases.

**Open.** It reads the fork's header and resource map once, and builds an index from four-character type codes ("CODE", "snd ") to that type's resources, one per reference-list entry and in on-disk order. Each resource carries its id, its name and the absolute offset of its data.

**Fetch.** On request it fetches one resource's payload: a signed 32-bit length, then that many bytes.

The model is in four modules:

- `BigEndian` (`bigendian.dfy`): the fixed-width integer types and the big-endian 16- and 32-bit reads. Every seek-then-read of the source is a read at an absolute position of an immutable byte sequence. Also the `Option` result type, 16-bit wrap-around, and the two's-complement reinterpretation as `int16`/`int32`.
- `Primitives` (`primitives.dfy`): `fourCharacterCode` and `readPascalString`. The latter is a `while` loop that reads one byte per character, proved against the function `PascalStringAt`. Also the round trips that pin both down.
- `ResourceMap` (`resourcemap.dfy`): the on-disk layout as pure functions. `ReadHeader`, `ReadTypeEntry` and `ReadResource` read one record each. `ReadBucket` gives the resources of one type and `ReadGroups` the type list. Both are instances of `Collect`, a counted loop that stops at its first failed read. `BuildIndex` then gives the index those groups build, and `ParseMap` the whole parse. `DataBlockAt` is the payload fetch. The lemmas about them are here too.
- `ResourceFork` (`resourcefork.dfy`): the `ResourceFile` class.
  - It holds the stream's bytes and the mutable index `resourcesByType`.
  - Its parse is a loop over type entries, each of which loops over its reference entries. It is proved to lay `ParseMap` over the index it held before. On the fresh handle `Open` builds, the index is exactly `ParseMap`.
  - It also has `CountResources` and `GetResource`.
  - The module-level `Open` hands out either a fully parsed handle or nothing.

The layout constants are those of the code:

- map fields at map offset + 24;
- type entry `i` at map offset + type-list offset + 2 + 8·i;
- reference entry `j` at map offset + type-list offset + reference-list offset + 12·j, with no +2;
- names at map offset + name-list offset + name offset;
- counts stored minus one and incremented in 16 bits;
- data offsets masked to their low 24 bits.

The code itself leaves the +2 for type entries as an open question in a comment (rsrc.go:138). A likely explanation: in the classic layout, the type list starts with the 2-byte type count, which the code reads at map offset + 28. Type entries follow that count, while reference-list offsets are counted from the start of the type list, so they need no +2. The model keeps both offsets exactly as the code computes them (`ResourceMap.TypeListQuirk`).

## Model

| member | source | states |
|---|---|---|
| BigEndian.ReadU16 | rsrc.go:116-129 | a 16-bit read at `p` succeeds exactly when both bytes lie inside the stream |
| BigEndian.ReadU16Digits | rsrc.go:116-129 | the value read is the two bytes at `p` and `p+1`, most significant first |
| BigEndian.ReadU32 | rsrc.go:90-108 | a 32-bit read at `p` succeeds exactly when all four bytes lie inside the stream |
| BigEndian.ReadU32Digits | rsrc.go:90-108 | the value read is the four bytes at `p .. p+3`, most significant first |
| BigEndian.Wrap16 | rsrc.go:130 | `+= 1` on a `uint16` is the identity below 2^16 and subtracts 2^16 once above |
| BigEndian.Int16 | rsrc.go:176-184 | the signed 16-bit field agrees with its bit pattern modulo 2^16 and is -1 exactly for the pattern 0xFFFF |
| BigEndian.Int32 | rsrc.go:72-75 | the signed 32-bit length agrees with its bit pattern modulo 2^32 and is negative exactly when the top bit is set |
| Primitives.FourCharacterCode | rsrc.go:14-21 | the type code of a 32-bit value always has four characters |
| Primitives.FourCharacterCodeRoundTrip | rsrc.go:14-21 | the four characters are byte-sized and reassembled big-endian they give back the value |
| Primitives.FourCharacterCodeOfChars | util.go:8-17 | every four-character string of byte-sized characters is the code of the value it reassembles to |
| Primitives.FourCharacterCodeInjective | util.go:8-17 | two values have the same type code exactly when they are equal |
| Primitives.FourCharacterCodeOfRead | rsrc.go:145-148 | the type code of a type entry is the entry's first four bytes taken as characters, in stream order |
| Primitives.ApplicationCode | util_test.go:10-12 | the code of 1095782476 is "APPL" |
| Primitives.PascalStringAt | util.go:19-37 | the string at `p` exists exactly when the length byte and all the bytes it announces lie inside the stream; it has that many characters, character `k` being byte `p+1+k` |
| Primitives.ReadPascalString | rsrc.go:23-41 | the byte-by-byte loop returns exactly the Pascal string at `p`, and fails exactly when it does not exist |
| Primitives.PascalStringRoundTrip | util.go:19-37 | a length byte followed by the string's bytes, anywhere in a stream, decodes back to the string |
| Primitives.PascalStringLocal | util.go:22-34 | the string is decided by the `1 + n` bytes it occupies and by nothing after them |
| Primitives.PascalStringExamples | util_test.go:14-30 | `[0]` gives "", `[3,'H','i','!']` gives "Hi!", `[3,'H','i']` and the empty stream fail |
| ResourceMap.ReadHeader | rsrc.go:90-130 | no contract of its own; its properties are the `ReadHeaderSpec` row, and `ResourceFile.ReadMapHeader` is proved equal to it |
| ResourceMap.TypeEntryPos | rsrc.go:141 | no contract of its own: the type-entry offset, with the +2; the `ReadTypeEntry` row states where it is read |
| ResourceMap.ReferenceEntryPos | rsrc.go:171 | no contract of its own: the reference-entry offset, without the +2; the `ReadResourceSpec` row states where it is read |
| ResourceMap.NamePos | rsrc.go:201 | no contract of its own: the name offset in the name list; the `ReadResourceSpec` row states where it is read |
| ResourceMap.ReadResource | rsrc.go:171-221 | no contract of its own; its properties are the `ReadResourceSpec` row, and `ResourceFile.ReadReference` is proved equal to it |
| ResourceMap.Collect | rsrc.go:140-225 | no contract of its own; its properties are the `CollectShape`, `CollectOfAll` and `CollectFails` rows |
| ResourceMap.ReadBucket | rsrc.go:169-224 | no contract of its own; its properties are the `ReadBucketIff`, `ReadBucketFails` and `ReadBucketWellFormed` rows, and `ResourceFile.ParseReferenceList` is proved equal to it |
| ResourceMap.ReadGroup | rsrc.go:141-224 | no contract of its own: type entry `i` with its bucket; `ResourceFile.ParseTypeEntry` is proved to store exactly it |
| ResourceMap.ReadGroups | rsrc.go:140-225 | no contract of its own; its properties are the `ReadGroupsShape`, `ReadGroupsSome`, `ReadGroupsFails` and `ReadGroupsWellFormed` rows |
| ResourceMap.BuildIndex | rsrc.go:165-223 | no contract of its own; its properties are the `BuildIndexKeys`, `BuildIndexLastWins` and `BuildIndexWellFormed` rows |
| ResourceMap.ParseMap | rsrc.go:87-228 | no contract of its own; its properties are the `ParseMapIff`, `ParseMapKeys`, `ParseMapLastWins`, `ParsedBucket` and `ParsedResourcesWellFormed` rows, and `ResourceFile.ParseResourceMap` and `Open` are proved against it |
| ResourceMap.ReadHeaderSpec | rsrc.go:90-130 | the header reads succeed exactly when bytes 0..15 and the six bytes at map offset + 24 exist; each field is the value at its offset and the type count is the stored count plus one modulo 2^16 |
| ResourceMap.ReadTypeEntry | rsrc.go:141-159 | type entry `i` is read at map offset + type-list offset + 2 + 8·i, succeeds exactly when its 8 bytes exist, and its resource count is the stored count plus one modulo 2^16 |
| ResourceMap.ReadResourceSpec | rsrc.go:171-221 | reference entry `j` is read at map offset + type-list offset + reference-list offset + 12·j, with no +2. It fails exactly when its 8 bytes are missing or its name (offset not -1) cannot be read. The id and name are as stored, the data offset is the resource-data offset plus the low 24 bits of the packed field, and the type is the entry's code |
| ResourceMap.CollectShape | rsrc.go:140-224 | a counted loop that finishes holds one result per pass, result `i` being what pass `i` read |
| ResourceMap.CollectOfAll | rsrc.go:140-224 | when the `k` reads give `xs`, the counted loop gives exactly `xs` |
| ResourceMap.CollectFails | rsrc.go:140-224 | a counted loop with one failed pass fails as a whole |
| ResourceMap.ReadBucketIff | rsrc.go:169-224 | a bucket of `n` resources is read exactly when each of the `n` reference entries is, and holds them in reference-list order |
| ResourceMap.ReadBucketFails | rsrc.go:176-208 | one unreadable reference entry or name loses the whole bucket |
| ResourceMap.ReadBucketWellFormed | rsrc.go:186-221 | every resource of a bucket has its type's code, no payload yet, and a data offset within 2^24 of the resource data |
| ResourceMap.ResourceCountWraps | rsrc.go:150-154 | a stored resource count of 0xFFFF wraps to zero: the type gets an empty bucket and no reference entry is read |
| ResourceMap.BuildIndexKeys | rsrc.go:165 | the index has exactly one key per type code among the groups read |
| ResourceMap.BuildIndexLastWins | rsrc.go:165 | each key holds the bucket of the last group with that code, because a later duplicate resets the bucket |
| ResourceMap.BuildIndexWellFormed | rsrc.go:216-223 | when every resource of every group satisfies `WellFormedResource` for its group's code, every resource of the index satisfies it for its key |
| ResourceMap.BuildIndexSnoc | rsrc.go:165-223 | one more type entry replaces exactly its own key's bucket (definition, used as a proof step) |
| ResourceMap.ReadGroupsShape | rsrc.go:140-165 | the type walk over `k` entries yields `k` groups, group `i` being type entry `i` with its bucket |
| ResourceMap.ReadGroupsSome | rsrc.go:140-165 | the type walk succeeds exactly when every type entry and all its resources can be read |
| ResourceMap.ReadGroupsFails | rsrc.go:141-159 | one unreadable type entry or bucket loses the whole walk |
| ResourceMap.ReadGroupsWellFormed | rsrc.go:165-223 | every resource of every group is well formed for its group's code |
| ResourceMap.ParseMapGroups | rsrc.go:87-228 | a parsed map is the index built from the groups of all type entries (definition, used as a proof step) |
| ResourceMap.ParseMapIff | rsrc.go:87-228 | parsing succeeds exactly when the header and every type entry with its resources can be read |
| ResourceMap.ReadGroupsKeys | rsrc.go:140-165 | after a type walk over `k` entries, a code is a key of the index it builds exactly when one of those entries carries it |
| ResourceMap.ParseMapKeys | rsrc.go:165 | a code is a key of the parsed map exactly when some type entry carries it |
| ResourceMap.ParseMapLastWins | rsrc.go:165 | the parsed bucket of a code is that of the last type entry with the code |
| ResourceMap.ParsedBucket | rsrc.go:165-224 | that bucket has as many resources as the entry's (wrapped) count, resource `j` being reference entry `j` |
| ResourceMap.ParsedResourcesWellFormed | rsrc.go:186-223 | every parsed resource lies in its own type's bucket, has no payload yet, and has a data offset in `[resourceDataOffset, resourceDataOffset + 2^24)` |
| ResourceMap.GroupFailureAborts | rsrc.go:141-159 | any failed type-entry read aborts the parse |
| ResourceMap.ResourceFailureAborts | rsrc.go:172-208 | any failed reference-entry or name read aborts the parse |
| ResourceMap.UnreadableNameAborts | rsrc.go:200-208 | a resource whose name offset is not -1 and whose name cannot be read aborts the parse |
| ResourceMap.TypeCountWraps | rsrc.go:126-130 | a stored type count of 0xFFFF wraps to zero types: the parse succeeds with an empty index |
| ResourceMap.TruncatedHeaderFails | rsrc.go:90-108 | a stream shorter than the 16-byte header fails to parse |
| ResourceMap.TruncatedTypeListFails | rsrc.go:141-159 | a stream that ends inside the last type entry fails to parse |
| ResourceMap.DataBlockAt | rsrc.go:68-81 | the payload at an offset exists exactly when the length field exists, is non-negative and that many bytes follow; it is exactly those bytes, as many as the length says |
| ResourceMap.DataBlockAsWritten | rsrc.go:77-82 | the payload as the code reads it has the declared length whenever it exists |
| ResourceMap.DataBlockAsWrittenAgrees | rsrc.go:77-82 | wherever the whole block is present, the code's read and the complete-block read agree |
| ResourceMap.TruncatedBlockPadded | rsrc.go:77-82 | a block declaring 4 bytes with only 2 present is returned by the code's read zero-padded, and refused by the complete-block read |
| ResourceFork.ResourceFile.constructor | rsrc.go:235-238 | a handle on the stream starts with an empty index |
| ResourceFork.ResourceFile.CountResources | rsrc.go:60-62 | the length of the type's bucket, 0 for an unregistered type |
| ResourceFork.CountResourcesOfEntry | rsrc.go:60-62 | on a parsed handle, the count of a code is the resource count of the last type entry with that code |
| ResourceFork.CountResourcesUnregistered | rsrc.go:60-62 | on a parsed handle, a code no type entry carries counts 0 |
| ResourceFork.ResourceFile.ParseResourceMap | rsrc.go:87-228 | the parse succeeds exactly when `ParseMap` does, and then the index is the parsed map laid over what it held before |
| ResourceFork.ResourceFile.ReadMapHeader | rsrc.go:90-130 | the header reads give exactly `ReadHeader` |
| ResourceFork.ResourceFile.ParseTypeEntry | rsrc.go:140-165 | one pass of the type loop succeeds exactly when the group can be read, and then replaces that type's bucket by the group's and nothing else |
| ResourceFork.ResourceFile.ParseReferenceList | rsrc.go:165-224 | the reference loop appends exactly the bucket `ReadBucket` gives to the emptied bucket, and fails exactly when it does not exist |
| ResourceFork.ResourceFile.ReadReference | rsrc.go:171-221 | one pass of the reference loop gives exactly `ReadResource` |
| ResourceFork.ResourceFile.GetResource | rsrc.go:64-85 | a hit exactly when the index is inside the bucket and the data block is complete; the hit is the stored resource with `Data` set to the block, whose length is the length field read; a miss is the zero resource; the index is unchanged, so repeated fetches agree |
| ResourceFork.Open | rsrc.go:230-246 | a fresh handle whose index is the parsed map, or `null` exactly when the parse fails, so no partial index is ever exposed |

## Findings

| source | as written | input that shows it | evidently intended | confidence | as-written member | corrected member |
|---|---|---|---|---|---|---|
| rsrc.go:77-82 | the byte count returned by `file.Read` is discarded, so a data block cut short by the end of the stream is returned as a hit, padded with zero bytes up to the declared length | stream `[0,0,0,4,7,9]`, data offset 0: the declared length is 4 and only `7,9` follow, and the fetch returns `Data = [7,9,0,0]` | the fetch misses when fewer bytes than the declared length follow, and never fabricates payload bytes | medium; not executed | ResourceMap.DataBlockAsWritten, ResourceMap.TruncatedBlockPadded | ResourceMap.DataBlockAt, ResourceFork.ResourceFile.GetResource |

`GetResource` uses the corrected read: a data block that runs past the end of the stream is a miss.

## Left out

- Opening by path (`path + "/..namedfork/rsrc"`) and `Close`: the file system is not modelled. `Open` takes the fork's bytes directly.
- The stream cursor and `bufio` read-ahead: every record is read from a known absolute offset (a seek, or offset 0 for the header), and each of its fields follows the one before, so every field is a read at an absolute position. Every read after `readPascalString` comes after a seek (rsrc.go:141, 172), so its read-ahead is never seen.
- Concurrency: the model is sequential, and the handle owns its bytes.
- Error values: every failure is `None`, `false` or `null`. Which I/O error occurred is not kept.
- The commented-out debug printing in `parseResourceMap` is not modelled.
- `resourceDataLength` and `resourceMapLength` are read (their bytes must exist) but used for nothing, as in the code.
- ResourceFork.ResourceFile.ParseResourceMap: on failure the source leaves a partly rebuilt index. The contract says nothing about the index then; `Open` discards such a handle.
- ResourceFork.ResourceFile.GetResource: a negative `resourceIndex` makes the source panic. The model requires `resourceIndex >= 0` instead.
- ResourceFork.ResourceFile.GetResource: a negative length field makes the source panic in `make`. The model returns a miss.
- ResourceFork.ResourceFile.GetResource: it follows the corrected complete-block read, not the zero-padding read of the code (see Findings).
- ResourceMap.DataBlockAsWritten: assumes one read of a regular file returns all the bytes that remain, up to the buffer size. Go's cap of 2^30 bytes per read is not modelled.
- Primitives.FourCharacterCode: characters are byte values taken as code points, as in `string(rune)`. `util.go` builds the string from raw bytes instead, and the two differ only in UTF-8 encoding for bytes of 0x80 or more. Both copies of `fourCharacterCode` and `readPascalString` (in `rsrc.go` and `util.go`) are modelled once.
- The fixture checks of the test suite (5 "CODE" resources, the "snd " resource named "Present Bounce" with id 5016) depend on a file that is not part of this model. What they exercise is stated in general: by `GetResource` for probes past the end of a bucket, and by `ResourceMap.ReadResourceSpec` and `GetResource` for names, ids and payload lengths.
