/** An open resource fork: the stream it owns and the index built from it.

    The file handle is modelled by the bytes it reads (`bytes`), which never
    change; the index (`resourcesByType`) is the one field the parse updates.
    Every seek-then-read of the parse and of a fetch is a read of `bytes` at
    an absolute position. */
module ResourceFork {
  import opened BigEndian
  import opened Primitives
  import opened ResourceMap

  class ResourceFile {
    /** The contents of the resource fork the handle reads. */
    const bytes: seq<byte>
    /** Type code to the resources of that type, in reference-list order. */
    var resourcesByType: Index

    /** The state `Open` hands out: the index is the one the resource map of
        `bytes` describes. Not an invariant of every handle: a fresh handle
        has an empty index until its map is parsed. */
    ghost predicate Parsed()
      reads this
    {
      ParseMap(bytes) == Some(resourcesByType)
    }

    /** A handle on `bytes` with an empty index. */
    constructor (bytes: seq<byte>)
      ensures this.bytes == bytes && resourcesByType == map[]
    {
      this.bytes := bytes;
      resourcesByType := map[];
    }

    /** The length of the bucket of `resourceType`; 0 for a type no type
        entry registered. */
    function CountResources(resourceType: string): (n: nat)
      reads this
      ensures resourceType !in resourcesByType ==> n == 0
      ensures resourceType in resourcesByType ==> n == |resourcesByType[resourceType]|
    {
      if resourceType in resourcesByType then |resourcesByType[resourceType]| else 0
    }

    /** Reads the header, then walks the type list, parsing each type entry
        in turn. Succeeds exactly when every read does; the index then holds
        the parsed map over what it held before. */
    method ParseResourceMap() returns (ok: bool)
      modifies this
      ensures ok <==> ParseMap(bytes).Some?
      ensures ok ==> resourcesByType == old(resourcesByType) + ParseMap(bytes).value
    {
      var header := ReadMapHeader();
      if header.None? { return false; }
      var h := header.value;

      ghost var start := resourcesByType;
      ghost var groups: seq<TypeGroup> := [];
      var typeIndex := 0;
      while typeIndex < h.numberOfTypes
        invariant 0 <= typeIndex <= h.numberOfTypes
        invariant ReadGroups(bytes, h, typeIndex) == Some(groups)
        invariant resourcesByType == start + BuildIndex(groups)
      {
        var parsed := ParseTypeEntry(h, typeIndex);
        if !parsed {
          GroupFailureAborts(bytes, h, typeIndex);
          return false;
        }
        ghost var g := ReadGroup(bytes, h, typeIndex).value;
        ReadGroupsStep(bytes, h, typeIndex, groups, g);
        IndexOverStep(start, groups, g);
        groups := groups + [g];
        typeIndex := typeIndex + 1;
      }
      ParseMapOfGroups(bytes, h, groups);
      return true;
    }

    /** The four header fields at the start of the stream, then the three
        map fields 24 bytes into the map; the stored type count is
        incremented in 16 bits. `None` on the first read that fails. */
    method ReadMapHeader() returns (r: Option<Header>)
      ensures r == ReadHeader(bytes)
    {
      var resourceDataOffset := ReadU32(bytes, 0);
      if resourceDataOffset.None? { return None; }
      var resourceMapOffset := ReadU32(bytes, 4);
      if resourceMapOffset.None? { return None; }
      var resourceDataLength := ReadU32(bytes, 8);
      if resourceDataLength.None? { return None; }
      var resourceMapLength := ReadU32(bytes, 12);
      if resourceMapLength.None? { return None; }

      var mapOffset := resourceMapOffset.value;
      var resourceTypeListOffset := ReadU16(bytes, mapOffset + MapFieldsOffset);
      if resourceTypeListOffset.None? { return None; }
      var resourceNameListOffset := ReadU16(bytes, mapOffset + MapFieldsOffset + 2);
      if resourceNameListOffset.None? { return None; }
      var storedTypes := ReadU16(bytes, mapOffset + MapFieldsOffset + 4);
      if storedTypes.None? { return None; }
      var numberOfTypes := Wrap16(storedTypes.value as int + 1);
      return Some(Header(resourceDataOffset.value, mapOffset, resourceDataLength.value, resourceMapLength.value,
                         resourceTypeListOffset.value, resourceNameListOffset.value, numberOfTypes));
    }

    /** Type entry `typeIndex`: reads its code, resource count and
        reference-list offset, gives its type a fresh empty bucket and appends
        the resources of its reference list one by one. Succeeds exactly when
        the entry and all its resources can be read, and then the type's
        bucket is the group read and no other bucket changes. */
    method ParseTypeEntry(h: Header, typeIndex: int) returns (ok: bool)
      modifies this
      ensures ok <==> ReadGroup(bytes, h, typeIndex).Some?
      ensures ok ==> var g := ReadGroup(bytes, h, typeIndex).value;
        resourcesByType == old(resourcesByType)[g.key := g.bucket]
    {
      var p := TypeEntryPos(h, typeIndex);
      var resourceType := ReadU32(bytes, p);
      if resourceType.None? { return false; }
      var storedCount := ReadU16(bytes, p + 4);
      if storedCount.None? { return false; }
      var referenceListOffset := ReadU16(bytes, p + 6);
      if referenceListOffset.None? { return false; }
      var numberOfResources := Wrap16(storedCount.value as int + 1);
      var t := TypeEntry(resourceType.value, numberOfResources, referenceListOffset.value);
      assert ReadTypeEntry(bytes, h, typeIndex) == Some(t);

      resourcesByType := resourcesByType[FourCharacterCode(t.code) := []];
      ok := ParseReferenceList(h, t);
    }

    /** The reference list of type entry `t`, appended resource by resource
        to the (freshly emptied) bucket of its type. Succeeds exactly when
        every resource can be read, and then that bucket holds them in order
        and no other bucket changes. */
    method ParseReferenceList(h: Header, t: TypeEntry) returns (ok: bool)
      requires FourCharacterCode(t.code) in resourcesByType && resourcesByType[FourCharacterCode(t.code)] == []
      modifies this
      ensures ok <==> ReadBucket(bytes, h, t, t.numberOfResources).Some?
      ensures ok ==> resourcesByType == old(resourcesByType)[FourCharacterCode(t.code) := ReadBucket(bytes, h, t, t.numberOfResources).value]
    {
      var key := FourCharacterCode(t.code);
      ghost var bucket: seq<Resource> := [];
      var referenceIndex := 0;
      while referenceIndex < t.numberOfResources
        invariant 0 <= referenceIndex <= t.numberOfResources
        invariant ReadBucket(bytes, h, t, referenceIndex) == Some(bucket)
        invariant resourcesByType == old(resourcesByType)[key := bucket]
      {
        var resource := ReadReference(h, t, referenceIndex);
        if resource.None? {
          ReadBucketFails(bytes, h, t, t.numberOfResources, referenceIndex);
          return false;
        }
        resourcesByType := resourcesByType[key := resourcesByType[key] + [resource.value]];
        bucket := bucket + [resource.value];
        referenceIndex := referenceIndex + 1;
      }
      return true;
    }

    /** Reference entry `referenceIndex` of type entry `t`: id, name offset
        and packed data offset (flags byte masked off), then the name unless
        the name offset is -1. */
    method ReadReference(h: Header, t: TypeEntry, referenceIndex: int) returns (r: Option<Resource>)
      ensures r == ReadResource(bytes, h, t, referenceIndex)
    {
      var offset := ReferenceEntryPos(h, t, referenceIndex);
      var resourceId := ReadU16(bytes, offset);
      if resourceId.None? { return None; }
      var resourceNameOffset := ReadU16(bytes, offset + 2);
      if resourceNameOffset.None? { return None; }
      var thisResourceDataOffset := ReadU32(bytes, offset + 4);
      if thisResourceDataOffset.None? { return None; }
      var nameOffset := Int16(resourceNameOffset.value);
      var resourceName := "";
      if nameOffset != NoName {
        var name := ReadPascalString(bytes, NamePos(h, nameOffset));
        if name.None? { return None; }
        resourceName := name.value;
      }
      return Some(Resource(FourCharacterCode(t.code), Int16(resourceId.value), resourceName, [],
                           h.resourceDataOffset + thisResourceDataOffset.value % 0x100_0000));
    }

    /** Fetches resource `resourceIndex` of `resourceType` with its payload.
        A miss (the zero resource and `false`) when the index is past the end
        of the bucket or the type is unregistered, or when the data block at
        the resource's offset cannot be read in full; otherwise the stored
        resource with `Data` set to the block's bytes, as many as its length
        field says. The index is left as it was. */
    method GetResource(resourceType: string, resourceIndex: int) returns (resource: Resource, ok: bool)
      requires resourceIndex >= 0
      ensures ok <==> resourceIndex < CountResources(resourceType)
                      && DataBlockAt(bytes, resourcesByType[resourceType][resourceIndex].dataOffset).Some?
      ensures ok ==>
        var stored := resourcesByType[resourceType][resourceIndex];
        && resource == stored.(data := DataBlockAt(bytes, stored.dataOffset).value)
        && |resource.data| == Int32(ReadU32(bytes, stored.dataOffset).value)
      ensures !ok ==> resource == NoResource
    {
      if resourceIndex < CountResources(resourceType) {
        var stored := resourcesByType[resourceType][resourceIndex];
        var resourceLength := ReadU32(bytes, stored.dataOffset);
        if resourceLength.None? {
          return NoResource, false;
        }
        var length := Int32(resourceLength.value);
        var start := stored.dataOffset + 4;
        if length < 0 || !InBounds(bytes, start, length) {
          return NoResource, false;
        }
        return stored.(data := bytes[start .. start + length]), true;
      }
      return NoResource, false;
    }
  }

  /** Opens the resource fork held in `bytes`: a handle whose index is the
      parsed resource map, or `null` when parsing fails, so that no partial
      index is ever handed out. */
  method Open(bytes: seq<byte>) returns (rf: ResourceFile?)
    ensures rf == null <==> ParseMap(bytes).None?
    ensures rf != null ==> fresh(rf) && rf.bytes == bytes && rf.Parsed()
  {
    var file := new ResourceFile(bytes);
    var ok := file.ParseResourceMap();
    if !ok {
      return null;
    }
    assert map[] + ParseMap(bytes).value == ParseMap(bytes).value;
    return file;
  }

  /** On a handle whose index is the parsed map, the count for the code of
      the last type entry `i` with that code is that entry's resource count
      (stored minus one, incremented in 16 bits). */
  lemma CountResourcesOfEntry(rf: ResourceFile, i: nat)
    requires rf.Parsed()
    requires var h := ReadHeader(rf.bytes).value;
      i < h.numberOfTypes && AllGroups(rf.bytes, h, h.numberOfTypes) && LastOfKey(rf.bytes, h, h.numberOfTypes, i)
    ensures var t := ReadTypeEntry(rf.bytes, ReadHeader(rf.bytes).value, i).value;
      rf.CountResources(FourCharacterCode(t.code)) == t.numberOfResources
  {
    ParsedBucket(rf.bytes, i);
  }

  /** On such a handle, a type code that no type entry carries counts 0. */
  lemma CountResourcesUnregistered(rf: ResourceFile, resourceType: string)
    requires rf.Parsed()
    requires var h := ReadHeader(rf.bytes).value;
      && AllGroups(rf.bytes, h, h.numberOfTypes)
      && forall i | 0 <= i < h.numberOfTypes :: ReadGroup(rf.bytes, h, i).value.key != resourceType
    ensures rf.CountResources(resourceType) == 0
  {
    ParseMapKeys(rf.bytes, resourceType);
  }
}
