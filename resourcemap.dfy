/** The layout of a classic resource fork and the index its resource map
    describes, as pure functions of the stream.

    Header at 0: data offset, map offset, data length, map length (32 bits each).
    Map fields at map offset + 24: type-list offset, name-list offset and the
    number of types minus one (16 bits each). Type entry `i` (8 bytes) sits at
    map offset + type-list offset + 2 + 8 * i; reference entry `j` of a type
    (12 bytes, of which 8 are read) at map offset + type-list offset +
    reference-list offset + 12 * j; a name at map offset + name-list offset +
    name offset. Counts are stored minus one and incremented in 16 bits. */
module ResourceMap {
  import opened BigEndian
  import opened Primitives

  /** One resource: type code, id and name, the payload once it has been
      fetched (empty until then), and the absolute offset of its
      length-prefixed data block. */
  datatype Resource = Resource(resourceType: string, id: int16, name: string, data: seq<byte>, dataOffset: int)

  /** The zero resource, returned when a fetch misses. */
  const NoResource := Resource("", 0, "", [], 0)

  /** Resources grouped by type code, each group in reference-list order. */
  type Index = map<string, seq<Resource>>

  /** Map header bytes skipped before the type-list offset. */
  const MapFieldsOffset := 24
  /** The constant added when locating a type entry, and not when locating a
      reference entry. */
  const TypeListQuirk := 2
  const TypeEntrySize := 8
  const ReferenceEntrySize := 12
  /** The name offset of a resource without a name. */
  const NoName := -1

  datatype Header = Header(
    resourceDataOffset: uint32, resourceMapOffset: uint32,
    resourceDataLength: uint32, resourceMapLength: uint32,
    typeListOffset: uint16, nameListOffset: uint16, numberOfTypes: uint16)

  /** The four header fields, then the three map fields. */
  function ReadHeader(bytes: seq<byte>): Option<Header>
  {
    var dataOffset :- ReadU32(bytes, 0);
    var mapOffset :- ReadU32(bytes, 4);
    var dataLength :- ReadU32(bytes, 8);
    var mapLength :- ReadU32(bytes, 12);
    var typeListOffset :- ReadU16(bytes, mapOffset + MapFieldsOffset);
    var nameListOffset :- ReadU16(bytes, mapOffset + MapFieldsOffset + 2);
    var storedTypes :- ReadU16(bytes, mapOffset + MapFieldsOffset + 4);
    Some(Header(dataOffset, mapOffset, dataLength, mapLength,
                typeListOffset, nameListOffset, Wrap16(storedTypes + 1)))
  }

  /** Which bytes the header fields come from; the type count is stored
      minus one and incremented in 16 bits. */
  lemma ReadHeaderSpec(bytes: seq<byte>)
    ensures ReadHeader(bytes).Some? <==>
      InBounds(bytes, 0, 16) && InBounds(bytes, ReadU32(bytes, 4).value + MapFieldsOffset, 6)
    ensures ReadHeader(bytes).Some? ==>
      var h := ReadHeader(bytes).value;
      && h.resourceDataOffset == ReadU32(bytes, 0).value
      && h.resourceMapOffset == ReadU32(bytes, 4).value
      && h.resourceDataLength == ReadU32(bytes, 8).value
      && h.resourceMapLength == ReadU32(bytes, 12).value
      && h.typeListOffset == ReadU16(bytes, h.resourceMapOffset + 24).value
      && h.nameListOffset == ReadU16(bytes, h.resourceMapOffset + 26).value
      && h.numberOfTypes == (ReadU16(bytes, h.resourceMapOffset + 28).value + 1) % 0x1_0000
  {
  }

  /** One type-list entry, its resource count already incremented. */
  datatype TypeEntry = TypeEntry(code: uint32, numberOfResources: uint16, referenceListOffset: uint16)

  function TypeEntryPos(h: Header, i: int): int {
    h.resourceMapOffset + h.typeListOffset + TypeListQuirk + i * TypeEntrySize
  }

  function ReadTypeEntry(bytes: seq<byte>, h: Header, i: int): (r: Option<TypeEntry>)
    ensures r.Some? <==> InBounds(bytes, TypeEntryPos(h, i), TypeEntrySize)
    ensures r.Some? ==> r.value.code == ReadU32(bytes, TypeEntryPos(h, i)).value
    ensures r.Some? ==> r.value.numberOfResources == (ReadU16(bytes, TypeEntryPos(h, i) + 4).value + 1) % 0x1_0000
    ensures r.Some? ==> r.value.referenceListOffset == ReadU16(bytes, TypeEntryPos(h, i) + 6).value
  {
    var p := TypeEntryPos(h, i);
    var code :- ReadU32(bytes, p);
    var storedCount :- ReadU16(bytes, p + 4);
    var referenceListOffset :- ReadU16(bytes, p + 6);
    Some(TypeEntry(code, Wrap16(storedCount + 1), referenceListOffset))
  }

  function ReferenceEntryPos(h: Header, t: TypeEntry, j: int): int {
    h.resourceMapOffset + h.typeListOffset + t.referenceListOffset + j * ReferenceEntrySize
  }

  function NamePos(h: Header, nameOffset: int): int {
    h.resourceMapOffset + h.nameListOffset + nameOffset
  }

  /** What a parsed resource always satisfies: it lives in the bucket of its
      own type, carries no payload yet, and its data block starts within 2^24
      bytes after the start of the resource data. */
  predicate WellFormedResource(h: Header, key: string, r: Resource) {
    && r.resourceType == key
    && r.data == []
    && h.resourceDataOffset <= r.dataOffset < h.resourceDataOffset + 0x100_0000
  }

  /** Reference entry `j` of type `t`: id, name offset, packed data offset
      (flags byte discarded), then the name when the name offset is not -1. */
  function ReadResource(bytes: seq<byte>, h: Header, t: TypeEntry, j: int): Option<Resource>
  {
    var p := ReferenceEntryPos(h, t, j);
    var id :- ReadU16(bytes, p);
    var nameOffset :- ReadU16(bytes, p + 2);
    var packedDataOffset :- ReadU32(bytes, p + 4);
    var name :- if Int16(nameOffset) == NoName then Some("") else PascalStringAt(bytes, NamePos(h, Int16(nameOffset)));
    Some(Resource(FourCharacterCode(t.code), Int16(id), name, [],
                  h.resourceDataOffset + packedDataOffset % 0x100_0000))
  }

  /** Which bytes a resource comes from, and when it cannot be read. */
  lemma ReadResourceSpec(bytes: seq<byte>, h: Header, t: TypeEntry, j: int)
    ensures var p := ReferenceEntryPos(h, t, j);
      ReadResource(bytes, h, t, j).Some? <==>
        && InBounds(bytes, p, 8)
        && (|| Int16(ReadU16(bytes, p + 2).value) == NoName
            || PascalStringAt(bytes, NamePos(h, Int16(ReadU16(bytes, p + 2).value))).Some?)
    ensures ReadResource(bytes, h, t, j).Some? ==> WellFormedResource(h, FourCharacterCode(t.code), ReadResource(bytes, h, t, j).value)
    ensures var p := ReferenceEntryPos(h, t, j);
      ReadResource(bytes, h, t, j).Some? ==>
        && ReadResource(bytes, h, t, j).value.id == Int16(ReadU16(bytes, p).value)
        && ReadResource(bytes, h, t, j).value.dataOffset == h.resourceDataOffset + ReadU32(bytes, p + 4).value % 0x100_0000
    ensures var p := ReferenceEntryPos(h, t, j);
      ReadResource(bytes, h, t, j).Some? ==> ReadResource(bytes, h, t, j).value.name == if Int16(ReadU16(bytes, p + 2).value) == NoName then ""
                                  else PascalStringAt(bytes, NamePos(h, Int16(ReadU16(bytes, p + 2).value))).value
  {
  }

  /** The results of `read(0) .. read(k-1)`, in that order, or `None` as
      soon as one of them fails: the shape of both counted loops of the
      parse, each of which returns on its first failed read. */
  function Collect<T>(read: nat -> Option<T>, k: nat): Option<seq<T>>
    decreases k
  {
    if k == 0 then Some([])
    else
      var xs :- Collect(read, k - 1);
      var x :- read(k - 1);
      Some(xs + [x])
  }

  /** Reference entry `j` of type `t`, as a reader for `Collect`. */
  function ResourceReader(bytes: seq<byte>, h: Header, t: TypeEntry): nat -> Option<Resource> {
    j => ReadResource(bytes, h, t, j)
  }

  /** The first `n` resources of type `t`, in reference-list order. */
  function ReadBucket(bytes: seq<byte>, h: Header, t: TypeEntry, n: nat): Option<seq<Resource>> {
    Collect(ResourceReader(bytes, h, t), n)
  }

  /** A type entry with all its resources. */
  datatype TypeGroup = TypeGroup(key: string, bucket: seq<Resource>)

  function ReadGroup(bytes: seq<byte>, h: Header, i: int): Option<TypeGroup> {
    var t :- ReadTypeEntry(bytes, h, i);
    var bucket :- ReadBucket(bytes, h, t, t.numberOfResources);
    Some(TypeGroup(FourCharacterCode(t.code), bucket))
  }

  /** Type entry `i` with its bucket, as a reader for `Collect`. */
  function GroupReader(bytes: seq<byte>, h: Header): nat -> Option<TypeGroup> {
    i => ReadGroup(bytes, h, i)
  }

  /** The first `k` type entries with their buckets, in type-list order. */
  function ReadGroups(bytes: seq<byte>, h: Header, k: nat): Option<seq<TypeGroup>> {
    Collect(GroupReader(bytes, h), k)
  }

  /** The index the groups build when taken in order: each group replaces its
      type's bucket by a fresh one. */
  function BuildIndex(groups: seq<TypeGroup>): Index
    decreases |groups|
  {
    if groups == [] then map[]
    else
      var g := groups[|groups| - 1];
      BuildIndex(groups[..|groups| - 1])[g.key := g.bucket]
  }

  /** The whole resource map, or `None` if any read fails. */
  function ParseMap(bytes: seq<byte>): Option<Index> {
    var h :- ReadHeader(bytes);
    var groups :- ReadGroups(bytes, h, h.numberOfTypes);
    Some(BuildIndex(groups))
  }

  /** The data block at `offset`: a signed 32-bit length, then that many bytes.
      `None` when the length cannot be read, is negative, or runs past the end. */
  function DataBlockAt(bytes: seq<byte>, offset: int): (r: Option<seq<byte>>)
    ensures r.Some? <==> InBounds(bytes, offset, 4) && 0 <= Int32(ReadU32(bytes, offset).value)
                         && InBounds(bytes, offset + 4, Int32(ReadU32(bytes, offset).value))
    ensures r.Some? ==> |r.value| == Int32(ReadU32(bytes, offset).value)
    ensures r.Some? ==> r.value == bytes[offset + 4 .. offset + 4 + |r.value|]
  {
    var length :- ReadU32(bytes, offset);
    if 0 <= Int32(length) && InBounds(bytes, offset + 4, Int32(length)) then
      Some(bytes[offset + 4 .. offset + 4 + Int32(length)])
    else
      None
  }

  /** The payload exactly as the fetch reads it: one read into a buffer of
      the declared length whose byte count is then ignored. The read fails
      only when nothing at all is left (and the buffer is not empty); when
      the stream ends inside the block the rest of the buffer stays zero. */
  function DataBlockAsWritten(bytes: seq<byte>, offset: int): (r: Option<seq<byte>>)
    ensures r.Some? ==> InBounds(bytes, offset, 4) && |r.value| == Int32(ReadU32(bytes, offset).value)
  {
    var length :- ReadU32(bytes, offset);
    var n := Int32(length);
    var start := offset + 4;
    if n < 0 || (0 < n && start == |bytes|) then None
    else
      var available := if start + n <= |bytes| then n else |bytes| - start;
      Some(bytes[start .. start + available] + seq(n - available, _ => 0))
  }

  /** Wherever the whole block is present, the fetch as written reads it. */
  lemma DataBlockAsWrittenAgrees(bytes: seq<byte>, offset: int)
    requires DataBlockAt(bytes, offset).Some?
    ensures DataBlockAsWritten(bytes, offset) == DataBlockAt(bytes, offset)
  {
    var n := Int32(ReadU32(bytes, offset).value);
    assert bytes[offset + 4 .. offset + 4 + n] + seq(0, _ => 0) == bytes[offset + 4 .. offset + 4 + n];
  }

  /** A block declaring 4 bytes of which only 2 are present: the fetch as
      written returns them padded with two zero bytes, while the complete
      block read fails. */
  lemma TruncatedBlockPadded()
    ensures DataBlockAsWritten([0, 0, 0, 4, 7, 9], 0) == Some([7, 9, 0, 0])
    ensures DataBlockAt([0, 0, 0, 4, 7, 9], 0) == None
  {
    var bytes: seq<byte> := [0, 0, 0, 4, 7, 9];
    assert ReadU32(bytes, 0) == Some(4);
    assert bytes[4 .. 6] == [7, 9];
    var pad: seq<byte> := seq(2, _ => 0);
    assert pad == [0, 0];
    assert DataBlockAsWritten(bytes, 0) == Some(bytes[4 .. 6] + pad);
    assert bytes[4 .. 6] + pad == [7, 9, 0, 0];
  }

  // ---------------------------------------------------------------------------
  // Counted reads

  /** A collection of `k` reads holds what the `k` reads give, in order. */
  lemma {:induction false} CollectShape<T>(read: nat -> Option<T>, k: nat)
    requires Collect(read, k).Some?
    ensures |Collect(read, k).value| == k
    ensures forall i | 0 <= i < k :: read(i) == Some(Collect(read, k).value[i])
  {
    if k > 0 {
      CollectShape(read, k - 1);
      var prev := Collect(read, k - 1).value;
      var xs := Collect(read, k).value;
      assert xs == prev + [read(k - 1).value];
      assert forall i | 0 <= i < k - 1 :: xs[i] == prev[i];
    }
  }

  /** When the `k` reads give `xs`, so does their collection. */
  lemma {:induction false} CollectOfAll<T>(read: nat -> Option<T>, k: nat, xs: seq<T>)
    requires |xs| == k && forall i | 0 <= i < k :: read(i) == Some(xs[i])
    ensures Collect(read, k) == Some(xs)
  {
    if k > 0 {
      var prev := xs[..k - 1];
      assert forall i | 0 <= i < k - 1 :: prev[i] == xs[i];
      CollectOfAll(read, k - 1, prev);
      assert xs == prev + [xs[k - 1]];
    }
  }

  /** When none of the `k` reads fails, neither does their collection. */
  lemma {:induction false} CollectSome<T>(read: nat -> Option<T>, k: nat)
    requires forall i | 0 <= i < k :: read(i).Some?
    ensures Collect(read, k).Some?
  {
    if k > 0 {
      CollectSome(read, k - 1);
    }
  }

  /** One failed read loses the whole collection. */
  lemma CollectFails<T>(read: nat -> Option<T>, k: nat, i: nat)
    requires i < k && read(i).None?
    ensures Collect(read, k).None?
  {
    if Collect(read, k).Some? {
      CollectShape(read, k);
    }
  }

  /** One more successful read extends the collection by its result. */
  lemma CollectStep<T>(read: nat -> Option<T>, k: nat, xs: seq<T>, x: T)
    requires Collect(read, k) == Some(xs) && read(k) == Some(x)
    ensures Collect(read, k + 1) == Some(xs + [x])
  {
  }

  // ---------------------------------------------------------------------------
  // Buckets

  /** A bucket of `n` resources holds what the `n` reference entries give,
      in reference-list order. */
  lemma ReadBucketShape(bytes: seq<byte>, h: Header, t: TypeEntry, n: nat)
    requires ReadBucket(bytes, h, t, n).Some?
    ensures var b := ReadBucket(bytes, h, t, n).value;
      |b| == n && forall j | 0 <= j < n :: ReadResource(bytes, h, t, j) == Some(b[j])
  {
    var read := ResourceReader(bytes, h, t);
    CollectShape(read, n);
    var b := ReadBucket(bytes, h, t, n).value;
    forall j | 0 <= j < n ensures ReadResource(bytes, h, t, j) == Some(b[j]) {
      assert read(j) == ReadResource(bytes, h, t, j);
    }
  }

  /** A bucket of `n` resources is read exactly when every one of the `n`
      reference entries is, and holds them in reference-list order. */
  lemma ReadBucketIff(bytes: seq<byte>, h: Header, t: TypeEntry, n: nat, b: seq<Resource>)
    ensures ReadBucket(bytes, h, t, n) == Some(b)
        <==> |b| == n && forall j | 0 <= j < n :: ReadResource(bytes, h, t, j) == Some(b[j])
  {
    if ReadBucket(bytes, h, t, n) == Some(b) {
      ReadBucketShape(bytes, h, t, n);
    }
    if |b| == n && forall j | 0 <= j < n :: ReadResource(bytes, h, t, j) == Some(b[j]) {
      var read := ResourceReader(bytes, h, t);
      assert forall j | 0 <= j < n :: read(j) == ReadResource(bytes, h, t, j);
      CollectOfAll(read, n, b);
    }
  }

  /** One unreadable reference entry (or its name) loses the whole bucket. */
  lemma ReadBucketFails(bytes: seq<byte>, h: Header, t: TypeEntry, n: nat, j: nat)
    requires j < n && ReadResource(bytes, h, t, j).None?
    ensures ReadBucket(bytes, h, t, n).None?
  {
    var read := ResourceReader(bytes, h, t);
    assert read(j) == ReadResource(bytes, h, t, j);
    CollectFails(read, n, j);
  }

  /** Every resource of a bucket is well formed for its type's key. */
  lemma ReadBucketWellFormed(bytes: seq<byte>, h: Header, t: TypeEntry, n: nat)
    requires ReadBucket(bytes, h, t, n).Some?
    ensures var b := ReadBucket(bytes, h, t, n).value;
      |b| == n && forall j | 0 <= j < |b| :: WellFormedResource(h, FourCharacterCode(t.code), b[j])
  {
    var b := ReadBucket(bytes, h, t, n).value;
    ReadBucketShape(bytes, h, t, n);
    forall j | 0 <= j < |b| ensures WellFormedResource(h, FourCharacterCode(t.code), b[j]) {
      assert ReadResource(bytes, h, t, j) == Some(b[j]);
    }
  }

  /** A stored resource count of 0xFFFF wraps to zero resources: the type gets
      an empty bucket and no reference entry is read. */
  lemma ResourceCountWraps(bytes: seq<byte>, h: Header, i: int)
    requires ReadTypeEntry(bytes, h, i).Some?
    requires ReadU16(bytes, TypeEntryPos(h, i) + 4) == Some(0xFFFF)
    ensures ReadGroup(bytes, h, i) == Some(TypeGroup(FourCharacterCode(ReadTypeEntry(bytes, h, i).value.code), []))
  {
  }

  // ---------------------------------------------------------------------------
  // Building the index

  /** No group after `i` has the same type code. */
  predicate LastOf(groups: seq<TypeGroup>, i: nat)
    requires i < |groups|
  {
    forall i' | i < i' < |groups| :: groups[i'].key != groups[i].key
  }

  /** Adding one more group replaces (or adds) that group's key. */
  lemma BuildIndexSnoc(groups: seq<TypeGroup>, g: TypeGroup)
    ensures BuildIndex(groups + [g]) == BuildIndex(groups)[g.key := g.bucket]
  {
    assert (groups + [g])[..|groups|] == groups;
  }

  /** The index has one key per type code among the groups. */
  lemma {:induction false} BuildIndexKeys(groups: seq<TypeGroup>)
    ensures BuildIndex(groups).Keys == (set i | 0 <= i < |groups| :: groups[i].key)
    decreases |groups|
  {
    if groups != [] {
      var n := |groups| - 1;
      var prefix := groups[..n];
      BuildIndexKeys(prefix);
      var now := set i | 0 <= i < |groups| :: groups[i].key;
      var before := set i | 0 <= i < n :: prefix[i].key;
      forall x | x in now ensures x in before + {groups[n].key} {
        var i :| 0 <= i < |groups| && groups[i].key == x;
        if i < n {
          assert prefix[i].key == x;
        }
      }
      forall x | x in before + {groups[n].key} ensures x in now {
        if x != groups[n].key {
          var i :| 0 <= i < n && prefix[i].key == x;
          assert groups[i].key == x;
        }
      }
    }
  }

  /** A code is a key of the index exactly when some group carries it. */
  lemma KeyOfGroups(groups: seq<TypeGroup>, key: string)
    ensures key in BuildIndex(groups) <==> exists i | 0 <= i < |groups| :: groups[i].key == key
  {
    BuildIndexKeys(groups);
    if key in BuildIndex(groups) {
      var i :| 0 <= i < |groups| && groups[i].key == key;
    }
  }

  /** Each key holds the bucket of the LAST group with that type code: a later
      duplicate replaces an earlier one. */
  lemma {:induction false} BuildIndexLastWins(groups: seq<TypeGroup>, i: nat)
    requires i < |groups| && LastOf(groups, i)
    ensures groups[i].key in BuildIndex(groups)
    ensures BuildIndex(groups)[groups[i].key] == groups[i].bucket
    decreases |groups|
  {
    var n := |groups| - 1;
    if i < n {
      var prefix := groups[..n];
      assert prefix[i] == groups[i];
      assert LastOf(prefix, i) by {
        forall i' | i < i' < n ensures prefix[i'].key != prefix[i].key {
          assert prefix[i'] == groups[i'];
        }
      }
      BuildIndexLastWins(prefix, i);
      assert groups[n].key != groups[i].key;
    }
  }

  /** What holds of every resource of every group holds of every resource of
      the index. */
  lemma {:induction false} BuildIndexWellFormed(h: Header, groups: seq<TypeGroup>)
    requires forall i | 0 <= i < |groups| :: forall j | 0 <= j < |groups[i].bucket| ::
      WellFormedResource(h, groups[i].key, groups[i].bucket[j])
    ensures var index := BuildIndex(groups);
      forall key | key in index :: forall j | 0 <= j < |index[key]| :: WellFormedResource(h, key, index[key][j])
    decreases |groups|
  {
    if groups != [] {
      var n := |groups| - 1;
      var prefix := groups[..n];
      assert forall i | 0 <= i < n :: prefix[i] == groups[i];
      BuildIndexWellFormed(h, prefix);
      var g := groups[n];
      var index := BuildIndex(groups);
      assert index == BuildIndex(prefix)[g.key := g.bucket];
      forall key | key in index ensures forall j | 0 <= j < |index[key]| :: WellFormedResource(h, key, index[key][j]) {
        if key == g.key {
          assert index[key] == groups[n].bucket;
          assert forall j | 0 <= j < |groups[n].bucket| :: WellFormedResource(h, groups[n].key, groups[n].bucket[j]);
        } else {
          assert key in BuildIndex(prefix) && index[key] == BuildIndex(prefix)[key];
        }
      }
    }
  }

  // ---------------------------------------------------------------------------
  // The type walk

  /** Type entries `0 .. k-1` and all their buckets can be read. */
  ghost predicate AllGroups(bytes: seq<byte>, h: Header, k: nat) {
    forall i | 0 <= i < k :: ReadGroup(bytes, h, i).Some?
  }

  /** No type entry after `i` (and before `k`) has the same type code. */
  ghost predicate LastOfKey(bytes: seq<byte>, h: Header, k: nat, i: nat)
    requires AllGroups(bytes, h, k) && i < k
  {
    forall i' | i < i' < k :: ReadGroup(bytes, h, i').value.key != ReadGroup(bytes, h, i).value.key
  }

  /** The groups of `k` type entries are what the `k` entries give, in
      type-list order. */
  lemma ReadGroupsShape(bytes: seq<byte>, h: Header, k: nat)
    requires ReadGroups(bytes, h, k).Some?
    ensures var groups := ReadGroups(bytes, h, k).value;
      |groups| == k && forall i | 0 <= i < k :: ReadGroup(bytes, h, i) == Some(groups[i])
  {
    var read := GroupReader(bytes, h);
    CollectShape(read, k);
    var groups := ReadGroups(bytes, h, k).value;
    forall i | 0 <= i < k ensures ReadGroup(bytes, h, i) == Some(groups[i]) {
      assert read(i) == ReadGroup(bytes, h, i);
    }
  }

  /** When all `k` type entries and their buckets can be read, so can the walk. */
  lemma ReadGroupsOfAll(bytes: seq<byte>, h: Header, k: nat)
    requires AllGroups(bytes, h, k)
    ensures ReadGroups(bytes, h, k).Some?
  {
    var read := GroupReader(bytes, h);
    assert forall i | 0 <= i < k :: read(i) == ReadGroup(bytes, h, i);
    CollectSome(read, k);
  }

  /** The walk over `k` type entries succeeds exactly when every entry and
      its bucket can be read. */
  lemma ReadGroupsSome(bytes: seq<byte>, h: Header, k: nat)
    ensures ReadGroups(bytes, h, k).Some? <==> AllGroups(bytes, h, k)
  {
    if ReadGroups(bytes, h, k).Some? {
      ReadGroupsShape(bytes, h, k);
    }
    if AllGroups(bytes, h, k) {
      ReadGroupsOfAll(bytes, h, k);
    }
  }

  /** Every resource of every group is well formed for the group's key. */
  lemma ReadGroupsWellFormed(bytes: seq<byte>, h: Header, k: nat)
    requires ReadGroups(bytes, h, k).Some?
    ensures var groups := ReadGroups(bytes, h, k).value;
      forall i | 0 <= i < |groups| :: forall j | 0 <= j < |groups[i].bucket| ::
        WellFormedResource(h, groups[i].key, groups[i].bucket[j])
  {
    var groups := ReadGroups(bytes, h, k).value;
    ReadGroupsShape(bytes, h, k);
    forall i | 0 <= i < |groups|
      ensures forall j | 0 <= j < |groups[i].bucket| :: WellFormedResource(h, groups[i].key, groups[i].bucket[j])
    {
      assert ReadGroup(bytes, h, i) == Some(groups[i]);
      var t := ReadTypeEntry(bytes, h, i).value;
      ReadBucketWellFormed(bytes, h, t, t.numberOfResources);
    }
  }

  // ---------------------------------------------------------------------------
  // The whole map

  /** A parsed map is the index built from the groups of all type entries. */
  lemma ParseMapGroups(bytes: seq<byte>)
    requires ParseMap(bytes).Some?
    ensures var h := ReadHeader(bytes).value;
      && ReadGroups(bytes, h, h.numberOfTypes).Some?
      && ParseMap(bytes).value == BuildIndex(ReadGroups(bytes, h, h.numberOfTypes).value)
  {
  }

  /** Parsing succeeds exactly when the header and every type entry with its
      bucket can be read. */
  lemma ParseMapIff(bytes: seq<byte>)
    ensures ParseMap(bytes).Some? <==>
      ReadHeader(bytes).Some? && AllGroups(bytes, ReadHeader(bytes).value, ReadHeader(bytes).value.numberOfTypes)
  {
    if ReadHeader(bytes).Some? {
      var h := ReadHeader(bytes).value;
      ReadGroupsSome(bytes, h, h.numberOfTypes);
    }
  }

  /** After the walk over `k` type entries, a code is a key of the index
      exactly when one of the entries carries it. */
  lemma ReadGroupsKeys(bytes: seq<byte>, h: Header, k: nat, key: string)
    requires ReadGroups(bytes, h, k).Some?
    ensures AllGroups(bytes, h, k)
    ensures key in BuildIndex(ReadGroups(bytes, h, k).value) <==>
      exists i | 0 <= i < k :: ReadGroup(bytes, h, i).value.key == key
  {
    var groups := ReadGroups(bytes, h, k).value;
    ReadGroupsShape(bytes, h, k);
    KeyOfGroups(groups, key);
    if key in BuildIndex(groups) {
      var i :| 0 <= i < |groups| && groups[i].key == key;
      assert ReadGroup(bytes, h, i) == Some(groups[i]);
    }
    if exists i | 0 <= i < k :: ReadGroup(bytes, h, i).value.key == key {
      var i :| 0 <= i < k && ReadGroup(bytes, h, i).value.key == key;
      assert groups[i].key == key;
    }
  }

  /** A parsed map has one key per type code of the type list: a code is a
      key exactly when some type entry carries it. */
  lemma ParseMapKeys(bytes: seq<byte>, key: string)
    requires ParseMap(bytes).Some?
    ensures var h := ReadHeader(bytes).value;
      && AllGroups(bytes, h, h.numberOfTypes)
      && (key in ParseMap(bytes).value <==>
          exists i | 0 <= i < h.numberOfTypes :: ReadGroup(bytes, h, i).value.key == key)
  {
    var h := ReadHeader(bytes).value;
    ParseMapGroups(bytes);
    ReadGroupsKeys(bytes, h, h.numberOfTypes, key);
  }

  /** Each key of a parsed map holds the bucket of the last type entry with
      that code. */
  lemma ParseMapLastWins(bytes: seq<byte>, i: nat)
    requires ParseMap(bytes).Some?
    requires var h := ReadHeader(bytes).value;
      i < h.numberOfTypes && AllGroups(bytes, h, h.numberOfTypes) && LastOfKey(bytes, h, h.numberOfTypes, i)
    ensures var h := ReadHeader(bytes).value;
      && ReadGroup(bytes, h, i).value.key in ParseMap(bytes).value
      && ParseMap(bytes).value[ReadGroup(bytes, h, i).value.key] == ReadGroup(bytes, h, i).value.bucket
  {
    var h := ReadHeader(bytes).value;
    var k := h.numberOfTypes;
    ParseMapGroups(bytes);
    var groups := ReadGroups(bytes, h, k).value;
    ReadGroupsShape(bytes, h, k);
    assert groups[i] == ReadGroup(bytes, h, i).value;
    assert LastOf(groups, i) by {
      forall i' | i < i' < k ensures groups[i'].key != groups[i].key {
        assert ReadGroup(bytes, h, i') == Some(groups[i']);
      }
    }
    BuildIndexLastWins(groups, i);
  }

  /** Every parsed resource sits in the bucket of its own type, has no payload
      yet, and has `dataOffset - resourceDataOffset` in `[0, 2^24)`. */
  lemma ParsedResourcesWellFormed(bytes: seq<byte>)
    requires ParseMap(bytes).Some?
    ensures var index := ParseMap(bytes).value;
      forall key | key in index :: forall j | 0 <= j < |index[key]| ::
        WellFormedResource(ReadHeader(bytes).value, key, index[key][j])
  {
    var h := ReadHeader(bytes).value;
    ParseMapGroups(bytes);
    var groups := ReadGroups(bytes, h, h.numberOfTypes).value;
    ReadGroupsWellFormed(bytes, h, h.numberOfTypes);
    BuildIndexWellFormed(h, groups);
  }

  /** One more readable group extends the walk by that group. */
  lemma ReadGroupsStep(bytes: seq<byte>, h: Header, k: nat, groups: seq<TypeGroup>, g: TypeGroup)
    requires ReadGroups(bytes, h, k) == Some(groups) && ReadGroup(bytes, h, k) == Some(g)
    ensures ReadGroups(bytes, h, k + 1) == Some(groups + [g])
  {
    CollectStep(GroupReader(bytes, h), k, groups, g);
  }

  /** A walk over all type entries gives the parsed map. */
  lemma ParseMapOfGroups(bytes: seq<byte>, h: Header, groups: seq<TypeGroup>)
    requires ReadHeader(bytes) == Some(h) && ReadGroups(bytes, h, h.numberOfTypes) == Some(groups)
    ensures ParseMap(bytes) == Some(BuildIndex(groups))
  {
  }

  /** Overwriting one key of an index laid over another is overwriting it
      in the upper index. */
  lemma IndexOverStep(start: Index, groups: seq<TypeGroup>, g: TypeGroup)
    ensures (start + BuildIndex(groups))[g.key := g.bucket] == start + BuildIndex(groups + [g])
  {
    BuildIndexSnoc(groups, g);
  }

  /** One unreadable group loses the whole walk. */
  lemma ReadGroupsFails(bytes: seq<byte>, h: Header, k: nat, i: nat)
    requires i < k && ReadGroup(bytes, h, i).None?
    ensures ReadGroups(bytes, h, k).None?
  {
    var read := GroupReader(bytes, h);
    assert read(i) == ReadGroup(bytes, h, i);
    CollectFails(read, k, i);
  }

  /** Failing to read type entry `i` or any of its resources aborts the parse. */
  lemma GroupFailureAborts(bytes: seq<byte>, h: Header, i: nat)
    requires ReadHeader(bytes) == Some(h)
    requires i < h.numberOfTypes && ReadGroup(bytes, h, i).None?
    ensures ParseMap(bytes).None?
  {
    ReadGroupsFails(bytes, h, h.numberOfTypes, i);
  }

  /** Failing to read reference entry `j` of type entry `i` (or its name)
      aborts the whole parse. */
  lemma ResourceFailureAborts(bytes: seq<byte>, h: Header, i: nat, t: TypeEntry, j: nat)
    requires ReadHeader(bytes) == Some(h) && i < h.numberOfTypes
    requires ReadTypeEntry(bytes, h, i) == Some(t)
    requires j < t.numberOfResources && ReadResource(bytes, h, t, j).None?
    ensures ParseMap(bytes).None?
  {
    ReadBucketFails(bytes, h, t, t.numberOfResources, j);
    GroupFailureAborts(bytes, h, i);
  }

  /** A name that cannot be read aborts the whole parse. */
  lemma UnreadableNameAborts(bytes: seq<byte>, h: Header, i: nat, j: nat)
    requires ReadHeader(bytes) == Some(h) && i < h.numberOfTypes
    requires ReadTypeEntry(bytes, h, i).Some?
    requires var t := ReadTypeEntry(bytes, h, i).value;
      && j < t.numberOfResources
      && InBounds(bytes, ReferenceEntryPos(h, t, j), 8)
      && Int16(ReadU16(bytes, ReferenceEntryPos(h, t, j) + 2).value) != NoName
      && PascalStringAt(bytes, NamePos(h, Int16(ReadU16(bytes, ReferenceEntryPos(h, t, j) + 2).value))).None?
    ensures ParseMap(bytes).None?
  {
    var t := ReadTypeEntry(bytes, h, i).value;
    ResourceFailureAborts(bytes, h, i, t, j);
  }

  /** The bucket a parsed map holds for the code of the last type entry `i`
      with that code: one resource per reference entry of `i`, in order. */
  lemma ParsedBucket(bytes: seq<byte>, i: nat)
    requires ParseMap(bytes).Some?
    requires var h := ReadHeader(bytes).value;
      i < h.numberOfTypes && AllGroups(bytes, h, h.numberOfTypes) && LastOfKey(bytes, h, h.numberOfTypes, i)
    ensures var h := ReadHeader(bytes).value;
      var t := ReadTypeEntry(bytes, h, i).value;
      var key := FourCharacterCode(t.code);
      && key in ParseMap(bytes).value
      && |ParseMap(bytes).value[key]| == t.numberOfResources
      && forall j | 0 <= j < t.numberOfResources :: ReadResource(bytes, h, t, j) == Some(ParseMap(bytes).value[key][j])
  {
    var h := ReadHeader(bytes).value;
    ParseMapLastWins(bytes, i);
    var t := ReadTypeEntry(bytes, h, i).value;
    ReadBucketShape(bytes, h, t, t.numberOfResources);
  }

  /** A stored type count of 0xFFFF wraps to zero types: the index is empty. */
  lemma TypeCountWraps(bytes: seq<byte>)
    requires ReadHeader(bytes).Some?
    requires ReadU16(bytes, ReadHeader(bytes).value.resourceMapOffset + 28) == Some(0xFFFF)
    ensures ParseMap(bytes) == Some(map[])
  {
  }

  /** A stream that ends inside the header fails to parse. */
  lemma TruncatedHeaderFails(bytes: seq<byte>)
    requires |bytes| < 16
    ensures ParseMap(bytes).None?
  {
  }

  /** A stream that ends inside the last type entry fails to parse. */
  lemma TruncatedTypeListFails(bytes: seq<byte>)
    requires ReadHeader(bytes).Some? && ReadHeader(bytes).value.numberOfTypes > 0
    requires |bytes| < TypeEntryPos(ReadHeader(bytes).value, ReadHeader(bytes).value.numberOfTypes - 1) + TypeEntrySize
    ensures ParseMap(bytes).None?
  {
    var h := ReadHeader(bytes).value;
    GroupFailureAborts(bytes, h, h.numberOfTypes - 1);
  }
}
