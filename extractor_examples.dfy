/**
 * Whole payloads read successfully: a payload that holds one non-null Portable field whose
 * nested payload has no fields, read into an empty registry, yields its definition and
 * leaves both the nested and the outer definition registered.
 */
module ExtractorExamples {
  import opened Common
  import opened Wire
  import opened ClassDef
  import opened PortableState
  import opened Extractor

  /** A payload that declares no fields registers the definition with no fields. */
  lemma ExtractNoFields(reg: Contexts, pv: int, data: seq<Byte>, pos: int, fid: int, cid: int, ver: int, fuel: nat)
    requires ReadFieldCount(data, pos) == Ok(0)
    ensures Extract(reg, pv, data, pos, fid, cid, ver, fuel) == RegisterIn(reg, pv, ClassDefinition(fid, cid, ver, []))
  {
  }

  /**
   * A payload that declares one field, a Portable followed into a nested payload that reads
   * successfully: the outer definition, holding that one field, is registered in the
   * registry the nested read left.
   */
  lemma ExtractOneNested(reg: Contexts, pv: int, data: seq<Byte>, pos: int, fid: int, cid: int, ver: int, fuel: nat,
                         fd: FieldDefinition, n: NestedRef)
    requires fuel >= 1
    requires ReadFieldCount(data, pos) == Ok(1)
    requires ParseField(data, pos + 2 * INT_SIZE_IN_BYTES, 0, true) == Ok(FieldHeader(fd, true, true, Some(n)))
    requires Extract(reg, pv, data, n.pos, n.factoryId, n.classId, n.version, fuel - 1).result.Ok?
    ensures Extract(reg, pv, data, pos, fid, cid, ver, fuel) ==
            RegisterIn(Extract(reg, pv, data, n.pos, n.factoryId, n.classId, n.version, fuel - 1).reg,
                       pv, ClassDefinition(fid, cid, ver, [fd]))
  {
    var base := pos + 2 * INT_SIZE_IN_BYTES;
    var inner := Extract(reg, pv, data, n.pos, n.factoryId, n.classId, n.version, fuel - 1);
    var nested := Nested(pv, data, fuel);
    assert nested(reg, n) == inner;
    assert ReadFieldAt(reg, data, base, 0, true, nested) == Run(Ok((fd, true)), inner.reg);
    assert [] + [fd] == [fd];
    assert FieldsFrom(reg, data, base, 0, 1, [], true, nested) == Run(Ok(([fd], true)), inner.reg);
  }

  /**
   * The payload at position 0: final position, field count 1, the table entry 12, then at 12
   * the name length, the name and the Portable tag, the null byte 0, the nested factory id,
   * class id and version, and right after them the nested payload: final position and
   * field count 0.
   */
  function NestedExample(name: Name, fid: int, cid: int, ver: int): (bs: seq<Byte>)
    requires |name| < 0x8000 && IsInt32(fid) && IsInt32(cid) && IsInt32(ver)
    ensures |bs| == 36 + |name|
  {
    var end := 36 + |name|;
    EncodeInt(end) + EncodeInt(1) + EncodeInt(12) + EncodeStart(name, Portable) +
    (EncodePortable(0, fid, cid, ver) + (EncodeInt(end) + EncodeInt(0)))
  }

  /** The header of the example payload: one field, which parses as a Portable followed into position 28 + |name|. */
  lemma ExampleOuterHeader(name: Name, fid: int, cid: int, ver: int)
    requires |name| < 0x8000 && IsInt32(fid) && IsInt32(cid) && IsInt32(ver)
    ensures var data := NestedExample(name, fid, cid, ver);
            && ReadFieldCount(data, 0) == Ok(1)
            && ParseField(data, 2 * INT_SIZE_IN_BYTES, 0, true) ==
               Ok(FieldHeader(FieldDefinition(0, name, Portable, fid, cid), true, true, Some(NestedRef(fid, cid, ver, 28 + |name|))))
  {
    var end := 36 + |name|;
    var data := NestedExample(name, fid, cid, ver);
    var prefix := EncodeInt(end) + EncodeInt(1) + EncodeInt(12);
    var tail := EncodeInt(end) + EncodeInt(0);
    ExamplePrefix(end);
    var rest := EncodeStart(name, Portable) + (EncodePortable(0, fid, cid, ver) + tail);
    assert data == prefix + rest;
    ReadIntExtended(prefix, rest, 0);
    ReadIntExtended(prefix, rest, INT_SIZE_IN_BYTES);
    ParseEncodedPortable(data, prefix, 2 * INT_SIZE_IN_BYTES, 0, name, 0, fid, cid, ver, true, tail);
  }

  /** The example's first 12 bytes: the final position, the field count 1 and the table entry 12. */
  lemma ExamplePrefix(end: int)
    requires IsInt32(end)
    ensures var prefix := EncodeInt(end) + EncodeInt(1) + EncodeInt(12);
            && ReadInt(prefix, 0) == Ok(end)
            && ReadInt(prefix, INT_SIZE_IN_BYTES) == Ok(1)
            && ReadInt(prefix, 2 * INT_SIZE_IN_BYTES) == Ok(12)
  {
    var prefix := EncodeInt(end) + EncodeInt(1) + EncodeInt(12);
    ReadEncodedInt([], end, EncodeInt(1) + EncodeInt(12));
    assert [] + EncodeInt(end) + (EncodeInt(1) + EncodeInt(12)) == prefix;
    ReadEncodedInt(EncodeInt(end), 1, EncodeInt(12));
    ReadEncodedInt(EncodeInt(end) + EncodeInt(1), 12, []);
    assert EncodeInt(end) + EncodeInt(1) + EncodeInt(12) + [] == prefix;
  }

  /** The nested payload of the example, at 28 + |name|, declares no fields. */
  lemma ExampleInnerHeader(name: Name, fid: int, cid: int, ver: int)
    requires |name| < 0x8000 && IsInt32(fid) && IsInt32(cid) && IsInt32(ver)
    ensures ReadFieldCount(NestedExample(name, fid, cid, ver), 28 + |name|) == Ok(0)
  {
    var end := 36 + |name|;
    var tail := EncodeInt(end) + EncodeInt(0);
    var head := EncodeInt(end) + EncodeInt(1) + EncodeInt(12) + EncodeStart(name, Portable) + EncodePortable(0, fid, cid, ver);
    ReadEncodedInt([], end, EncodeInt(0));
    assert [] + EncodeInt(end) + EncodeInt(0) == tail;
    ReadEncodedInt(EncodeInt(end), 0, []);
    assert EncodeInt(end) + EncodeInt(0) + [] == tail;
    assert NestedExample(name, fid, cid, ver) == head + tail;
    ReadIntShifted(head, tail, 0);
    ReadIntShifted(head, tail, INT_SIZE_IN_BYTES);
  }

  /**
   * Reading that payload into an empty registry succeeds with one level of fuel to spare:
   * the result is the outer definition with its one Portable field, stamped with the
   * Portable version, and the registry then holds both it and the nested definition.
   */
  lemma ExtractNestedExample(pv: int, name: Name, outerFid: int, outerCid: int, outerVer: int,
                             fid: int, cid: int, ver: int, fuel: nat)
    requires |name| < 0x8000 && IsInt32(fid) && IsInt32(cid) && IsInt32(ver)
    requires (outerFid, outerCid) != (fid, cid)
    requires fuel >= 1
    ensures var run := Extract(map[], pv, NestedExample(name, fid, cid, ver), 0, outerFid, outerCid, outerVer, fuel);
            var outer := StampVersion(ClassDefinition(outerFid, outerCid, outerVer, [FieldDefinition(0, name, Portable, fid, cid)]), pv);
            var inner := StampVersion(ClassDefinition(fid, cid, ver, []), pv);
            && run.result == Ok(outer)
            && LookupIn(run.reg, pv, outerFid, outerCid, outer.version) == Some(outer)
            && LookupIn(run.reg, pv, fid, cid, inner.version) == Some(inner)
  {
    ExampleOuterHeader(name, fid, cid, ver);
    ExampleInnerHeader(name, fid, cid, ver);
    ExtractOverEmptyNested(pv, NestedExample(name, fid, cid, ver), outerFid, outerCid, outerVer,
                           FieldDefinition(0, name, Portable, fid, cid), NestedRef(fid, cid, ver, 28 + |name|), fuel);
  }

  /**
   * Any payload at 0 of the shape of the example: one field followed into a nested payload
   * that declares no fields, under another factory and class id than the outer one.
   */
  lemma ExtractOverEmptyNested(pv: int, data: seq<Byte>, outerFid: int, outerCid: int, outerVer: int,
                               fd: FieldDefinition, n: NestedRef, fuel: nat)
    requires (outerFid, outerCid) != (n.factoryId, n.classId)
    requires fuel >= 1
    requires ReadFieldCount(data, 0) == Ok(1)
    requires ParseField(data, 2 * INT_SIZE_IN_BYTES, 0, true) == Ok(FieldHeader(fd, true, true, Some(n)))
    requires ReadFieldCount(data, n.pos) == Ok(0)
    ensures var run := Extract(map[], pv, data, 0, outerFid, outerCid, outerVer, fuel);
            var outer := StampVersion(ClassDefinition(outerFid, outerCid, outerVer, [fd]), pv);
            var inner := StampVersion(ClassDefinition(n.factoryId, n.classId, n.version, []), pv);
            && run.result == Ok(outer)
            && LookupIn(run.reg, pv, outerFid, outerCid, outer.version) == Some(outer)
            && LookupIn(run.reg, pv, n.factoryId, n.classId, inner.version) == Some(inner)
  {
    // The nested read registers the nested definition in the empty registry.
    var innerDef := ClassDefinition(n.factoryId, n.classId, n.version, []);
    ExtractNoFields(map[], pv, data, n.pos, n.factoryId, n.classId, n.version, fuel - 1);
    var innerRun := RegisterIn(map[], pv, innerDef);
    assert LookupIn(map[], pv, n.factoryId, n.classId, StampVersion(innerDef, pv).version) == None;
    assert innerRun.result == Ok(StampVersion(innerDef, pv));

    // Then the outer definition, under another key, in the registry the nested read left.
    var outerDef := ClassDefinition(outerFid, outerCid, outerVer, [fd]);
    ExtractOneNested(map[], pv, data, 0, outerFid, outerCid, outerVer, fuel, fd, n);
    assert LookupIn(innerRun.reg, pv, outerFid, outerCid, StampVersion(outerDef, pv).version) == None by {
      assert LookupIn(map[], pv, outerFid, outerCid, StampVersion(outerDef, pv).version) == None;
    }
  }
}
