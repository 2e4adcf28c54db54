/**
 * The schema extractor (`read_class_definition`) as a value function: given the registry,
 * a buffer and the absolute position of a Portable payload's final-offset word, it derives
 * the payload's class definition from the offset table, recursing into nested Portables,
 * and registers the result only when no nested schema was left unknown.
 *
 * Layout read: i32 final offset (discarded), i32 field count, then one i32 absolute
 * position per field.  At each position: i16 name length, the name bytes, a u8 type tag,
 * then for a Portable an u8 null flag, i32 factory id, i32 class id and (when still
 * registering) i32 version followed by the nested payload; for a Portable array an i32
 * length k, i32 factory id, i32 class id and, when k > 0, the i32 position of the first
 * element, where the element's i32 version and payload sit.
 *
 * Positions are absolute, so a malformed buffer can make the recursion revisit a payload
 * forever; `fuel` bounds the nesting depth and running out of it is the TooDeep error.
 */
module Extractor {
  import opened Common
  import opened Wire
  import opened ClassDef
  import opened Registry
  import opened PortableState

  /** Which way the field loop goes for a field type. */
  datatype Branch = NestedPortable | NestedArray | Reject

  /** The intended dispatch: Portable and Portable-array fields recurse, every other type is malformed. */
  function BranchOf(ft: FieldType): (b: Branch)
    ensures b == NestedPortable <==> ft == Portable
    ensures b == NestedArray <==> ft == PortableArray
  {
    if ft == Portable then NestedPortable
    else if ft == PortableArray then NestedArray
    else Reject
  }

  /**
   * The dispatch as written: the second test compares the builtin `type` with the array
   * tag instead of `field_type`, which is never equal, so arrays fall into the error.
   */
  function BranchAsWritten(ft: FieldType): (b: Branch)
    ensures b == NestedPortable <==> ft == Portable
    ensures b != NestedArray
  {
    if ft == Portable then NestedPortable else Reject
  }

  /** A Portable-array field is rejected as written and recursed into as intended. */
  lemma ArrayFieldRejectedAsWritten()
    ensures BranchAsWritten(PortableArray) == Reject
    ensures BranchOf(PortableArray) == NestedArray
  {
  }

  /** The i32 final offset (discarded) and the i32 field count at the start of a payload. */
  function ReadFieldCount(data: seq<Byte>, pos: int): (r: Result<int>)
    ensures r.Ok? <==> Available(data, pos, 2 * INT_SIZE_IN_BYTES)
    ensures r.Ok? ==> ReadInt(data, pos + INT_SIZE_IN_BYTES) == r
  {
    var finalPosition :- ReadInt(data, pos);
    ReadInt(data, pos + INT_SIZE_IN_BYTES)
  }

  /** What every field record starts with: name, type, and the position just after the tag. */
  datatype Prefix = Prefix(name: Name, fieldType: FieldType, after: int)

  /**
   * The record of field `i`: its position from entry `i` of the offset table starting at
   * `base`, then the length-prefixed name (a negative length is malformed) and the tag.
   */
  function ParsePrefix(data: seq<Byte>, base: int, i: int): Result<Prefix> {
    var pos :- ReadInt(data, base + 4 * i);
    var len :- ReadShort(data, pos);
    var name :- ReadBytes(data, pos + SHORT_SIZE_IN_BYTES, len);
    var tag :- ReadByte(data, pos + SHORT_SIZE_IN_BYTES + len);
    var ft :- FromTag(tag);
    Ok(Prefix(name, ft, pos + SHORT_SIZE_IN_BYTES + len + 1))
  }

  /**
   * Where a parsed record start comes from: entry `i` of the table gives the record's
   * position, where the name length is read; the name is the bytes after it and the tag
   * byte follows the name.
   */
  lemma ParsePrefixLayout(data: seq<Byte>, base: int, i: int)
    requires ParsePrefix(data, base, i).Ok?
    ensures var p := ParsePrefix(data, base, i).value;
            && ReadInt(data, base + 4 * i).Ok?
            && var pos := ReadInt(data, base + 4 * i).value;
               && ReadShort(data, pos) == Ok(|p.name|)
               && p.after == pos + SHORT_SIZE_IN_BYTES + |p.name| + 1
               && Available(data, pos + SHORT_SIZE_IN_BYTES, |p.name| + 1)
               && data[pos + SHORT_SIZE_IN_BYTES..p.after - 1] == p.name
               && TagOf(p.fieldType) == data[p.after - 1]
  {
  }

  /**
   * On the wire, the field whose record begins with `p` leaves its nested schema known: a
   * Portable whose null flag is clear, or a Portable array whose length k is positive.
   */
  predicate KnownOnWire(data: seq<Byte>, p: Prefix) {
    || (p.fieldType == Portable && ReadBool(data, p.after) == Ok(false))
    || (p.fieldType == PortableArray && ReadInt(data, p.after).Ok? && ReadInt(data, p.after).value > 0)
  }

  /** What the writer puts at the start of a field's record: the name's length, the name and the type's tag. */
  function EncodeStart(name: Name, ft: FieldType): (bs: seq<Byte>)
    requires |name| < 0x8000
    ensures |bs| == SHORT_SIZE_IN_BYTES + |name| + 1
  {
    EncodeShort(|name|) + name + [TagOf(ft)]
  }

  /**
   * The writer's side of a record's start: an offset-table entry pointing just past
   * `prefix`, where an encoded name length, the name and a type tag follow, parses back to
   * that name and type, with the rest of the record starting after the tag.
   */
  lemma ParseEncodedPrefix(prefix: seq<Byte>, base: int, i: int, name: Name, ft: FieldType, suffix: seq<Byte>)
    requires ReadInt(prefix, base + 4 * i) == Ok(|prefix|)
    requires |name| < 0x8000
    ensures ParsePrefix(prefix + EncodeStart(name, ft) + suffix, base, i) ==
            Ok(Prefix(name, ft, |prefix| + SHORT_SIZE_IN_BYTES + |name| + 1))
  {
    var rest := name + [TagOf(ft)] + suffix;
    var data := prefix + EncodeShort(|name|) + rest;
    assert data == prefix + EncodeStart(name, ft) + suffix;
    var entry := base + 4 * i;
    assert ReadInt(data, entry) == Ok(|prefix|) by {
      assert data[entry..entry + INT_SIZE_IN_BYTES] == prefix[entry..entry + INT_SIZE_IN_BYTES];
    }
    ReadEncodedShort(prefix, |name|, rest);
    var start := |prefix| + SHORT_SIZE_IN_BYTES;
    assert ReadBytes(data, start, |name|) == Ok(name) by {
      assert data[start..start + |name|] == name;
    }
    assert ReadByte(data, start + |name|) == Ok(TagOf(ft)) by {
      assert data[start + |name|] == rest[|name|];
    }
    FromTagOfTag(ft);
  }

  /** Where a nested payload sits and under which identity it must be read. */
  datatype NestedRef = NestedRef(factoryId: int, classId: int, version: int, pos: int)

  /**
   * One parsed field: its definition, whether this field leaves its nested schema known
   * (`resolved`), the registering flag after it, and the nested payload to recurse into.
   */
  datatype FieldHeader = FieldHeader(fd: FieldDefinition, resolved: bool, register: bool, nested: Option<NestedRef>)

  /**
   * The rest of a Portable field's record, after its tag at `p.after - 1`: the null flag,
   * the factory and class ids and, only while still registering and not null, the version,
   * after which the nested payload starts.  A null Portable clears the flag.
   */
  function PortableRecord(data: seq<Byte>, i: int, p: Prefix, register: bool): (r: Result<FieldHeader>)
    requires p.fieldType == Portable
    ensures r.Ok? ==> r.value.fd.index == i && r.value.fd.name == p.name && r.value.fd.fieldType == Portable
    ensures r.Ok? ==> (r.value.resolved <==> KnownOnWire(data, p))
    ensures r.Ok? ==> r.value.register == (register && r.value.resolved)
    ensures r.Ok? ==> (r.value.nested.Some? <==> register && r.value.resolved)
    ensures r.Ok? ==>
              && ReadInt(data, p.after + 1) == Ok(r.value.fd.factoryId)
              && ReadInt(data, p.after + 1 + INT_SIZE_IN_BYTES) == Ok(r.value.fd.classId)
    ensures r.Ok? && r.value.nested.Some? ==>
              && r.value.nested.value.factoryId == r.value.fd.factoryId
              && r.value.nested.value.classId == r.value.fd.classId
              && ReadInt(data, p.after + 1 + 2 * INT_SIZE_IN_BYTES) == Ok(r.value.nested.value.version)
              && r.value.nested.value.pos == p.after + 1 + 3 * INT_SIZE_IN_BYTES
  {
    var q := p.after;
    var isNull :- ReadBool(data, q);
    var fid :- ReadInt(data, q + 1);
    var cid :- ReadInt(data, q + 1 + INT_SIZE_IN_BYTES);
    var fd := FieldDefinition(i, p.name, p.fieldType, fid, cid);
    if register && !isNull then
      var ver :- ReadInt(data, q + 1 + 2 * INT_SIZE_IN_BYTES);
      Ok(FieldHeader(fd, true, true, Some(NestedRef(fid, cid, ver, q + 1 + 3 * INT_SIZE_IN_BYTES))))
    else
      Ok(FieldHeader(fd, !isNull, false, None))
  }

  /**
   * The rest of a Portable-array field's record: the length k, the factory and class ids
   * and, when k > 0, the position of the first element, where its version and payload sit.
   * The array is read whatever the flag; k <= 0 clears the flag.
   */
  function ArrayRecord(data: seq<Byte>, i: int, p: Prefix, register: bool): (r: Result<FieldHeader>)
    requires p.fieldType == PortableArray
    ensures r.Ok? ==> r.value.fd.index == i && r.value.fd.name == p.name && r.value.fd.fieldType == PortableArray
    ensures r.Ok? ==> (r.value.resolved <==> KnownOnWire(data, p))
    ensures r.Ok? ==> r.value.register == (register && r.value.resolved)
    ensures r.Ok? ==> (r.value.nested.Some? <==> r.value.resolved)
    ensures r.Ok? ==>
              && ReadInt(data, p.after + INT_SIZE_IN_BYTES) == Ok(r.value.fd.factoryId)
              && ReadInt(data, p.after + 2 * INT_SIZE_IN_BYTES) == Ok(r.value.fd.classId)
    ensures r.Ok? && r.value.nested.Some? ==>
              && r.value.nested.value.factoryId == r.value.fd.factoryId
              && r.value.nested.value.classId == r.value.fd.classId
              && ReadInt(data, p.after + 3 * INT_SIZE_IN_BYTES) == Ok(r.value.nested.value.pos - INT_SIZE_IN_BYTES)
              && ReadInt(data, r.value.nested.value.pos - INT_SIZE_IN_BYTES) == Ok(r.value.nested.value.version)
  {
    var q := p.after;
    var k :- ReadInt(data, q);
    var fid :- ReadInt(data, q + INT_SIZE_IN_BYTES);
    var cid :- ReadInt(data, q + 2 * INT_SIZE_IN_BYTES);
    var fd := FieldDefinition(i, p.name, p.fieldType, fid, cid);
    if k > 0 then
      var first :- ReadInt(data, q + 3 * INT_SIZE_IN_BYTES);
      var ver :- ReadInt(data, first);
      Ok(FieldHeader(fd, true, register, Some(NestedRef(fid, cid, ver, first + INT_SIZE_IN_BYTES))))
    else
      Ok(FieldHeader(fd, false, false, None))
  }

  /**
   * What the writer puts after a Portable field's tag: the null byte, the factory and class
   * ids and, for a non-null Portable only, the version.  A null record ends after its class id.
   */
  function EncodePortable(isNull: Byte, fid: int, cid: int, ver: int): (bs: seq<Byte>)
    requires IsInt32(fid) && IsInt32(cid) && IsInt32(ver)
    ensures |bs| == 1 + 2 * INT_SIZE_IN_BYTES + (if isNull == 0 then INT_SIZE_IN_BYTES else 0)
  {
    [isNull] + EncodeInt(fid) + EncodeInt(cid) + (if isNull == 0 then EncodeInt(ver) else [])
  }

  /**
   * The writer's side of a Portable record: after the name and tag come the null byte, the
   * factory and class ids and, when not null, the version.  With the flag set and the null
   * byte 0 the field is followed into the payload right after the version; otherwise nothing
   * is followed and nothing after the class id is read, so a null record parses whatever
   * follows it, the end of the buffer included.
   */
  lemma ParseEncodedPortable(data: seq<Byte>, prefix: seq<Byte>, base: int, i: int, name: Name, isNull: Byte,
                             fid: int, cid: int, ver: int, register: bool, suffix: seq<Byte>)
    requires ReadInt(prefix, base + 4 * i) == Ok(|prefix|)
    requires |name| < 0x8000 && IsInt32(fid) && IsInt32(cid) && IsInt32(ver)
    requires data == prefix + EncodeStart(name, Portable) + (EncodePortable(isNull, fid, cid, ver) + suffix)
    ensures var after := |prefix| + SHORT_SIZE_IN_BYTES + |name| + 1;
            var followed := register && isNull == 0;
            ParseField(data, base, i, register) ==
            Ok(FieldHeader(FieldDefinition(i, name, Portable, fid, cid), isNull == 0, followed,
                           if followed then Some(NestedRef(fid, cid, ver, after + 1 + 3 * INT_SIZE_IN_BYTES)) else None))
  {
    var head := prefix + EncodeStart(name, Portable);
    ParseEncodedPrefix(prefix, base, i, name, Portable, EncodePortable(isNull, fid, cid, ver) + suffix);
    var after := |prefix| + SHORT_SIZE_IN_BYTES + |name| + 1;
    EncodedPortableRecordOk(data, head, base, i, register, Prefix(name, Portable, after), isNull, fid, cid, ver, suffix);
  }

  /** Once the record start is parsed, the Portable record the writer put after it parses back. */
  lemma EncodedPortableRecordOk(data: seq<Byte>, head: seq<Byte>, base: int, i: int, register: bool, p: Prefix,
                                isNull: Byte, fid: int, cid: int, ver: int, suffix: seq<Byte>)
    requires ParsePrefix(data, base, i) == Ok(p) && p.fieldType == Portable && p.after == |head|
    requires IsInt32(fid) && IsInt32(cid) && IsInt32(ver)
    requires data == head + (EncodePortable(isNull, fid, cid, ver) + suffix)
    ensures var followed := register && isNull == 0;
            ParseField(data, base, i, register) ==
            Ok(FieldHeader(FieldDefinition(i, p.name, Portable, fid, cid), isNull == 0, followed,
                           if followed then Some(NestedRef(fid, cid, ver, p.after + 1 + 3 * INT_SIZE_IN_BYTES)) else None))
  {
    PortableRecordReads(data, head, isNull, fid, cid, ver, suffix);
    PortableFieldOk(data, base, i, register, p, isNull != 0, fid, cid, ver);
  }

  /**
   * A null Portable record is the null byte and the two ids and nothing more: it parses,
   * unresolved, unfollowed and clearing the flag, whatever follows it, even nothing.
   */
  lemma ParseEncodedNullPortable(data: seq<Byte>, prefix: seq<Byte>, base: int, i: int, name: Name, isNull: Byte,
                                 fid: int, cid: int, register: bool, suffix: seq<Byte>)
    requires ReadInt(prefix, base + 4 * i) == Ok(|prefix|)
    requires |name| < 0x8000 && IsInt32(fid) && IsInt32(cid) && isNull != 0
    requires data == prefix + EncodeStart(name, Portable) + ([isNull] + EncodeInt(fid) + EncodeInt(cid) + suffix)
    ensures ParseField(data, base, i, register) == Ok(FieldHeader(FieldDefinition(i, name, Portable, fid, cid), false, false, None))
  {
    assert [isNull] + EncodeInt(fid) + EncodeInt(cid) + suffix == EncodePortable(isNull, fid, cid, 0) + suffix;
    ParseEncodedPortable(data, prefix, base, i, name, isNull, fid, cid, 0, register, suffix);
  }

  /** The reads of a Portable record written after `head`, one word at a time. */
  lemma PortableRecordReads(data: seq<Byte>, head: seq<Byte>, isNull: Byte, fid: int, cid: int, ver: int, suffix: seq<Byte>)
    requires IsInt32(fid) && IsInt32(cid) && IsInt32(ver)
    requires data == head + (EncodePortable(isNull, fid, cid, ver) + suffix)
    ensures var q := |head|;
            && ReadBool(data, q) == Ok(isNull != 0)
            && ReadInt(data, q + 1) == Ok(fid)
            && ReadInt(data, q + 1 + INT_SIZE_IN_BYTES) == Ok(cid)
            && (isNull == 0 ==> ReadInt(data, q + 1 + 2 * INT_SIZE_IN_BYTES) == Ok(ver))
  {
    var q := |head|;
    assert data[q] == isNull;
    ReadIntAt(data, q + 1, fid);
    ReadIntAt(data, q + 1 + INT_SIZE_IN_BYTES, cid);
    if isNull == 0 {
      ReadIntAt(data, q + 1 + 2 * INT_SIZE_IN_BYTES, ver);
    }
  }

  /** Once the record start is parsed, the rest of a field is read by its type's record. */
  lemma ParseFieldByType(data: seq<Byte>, base: int, i: int, register: bool, p: Prefix)
    requires ParsePrefix(data, base, i) == Ok(p)
    ensures p.fieldType == Portable ==> ParseField(data, base, i, register) == PortableRecord(data, i, p, register)
    ensures p.fieldType == PortableArray ==> ParseField(data, base, i, register) == ArrayRecord(data, i, p, register)
  {
  }

  /** A Portable field whose record start, null flag and ids can be read, and its version when it is followed. */
  lemma PortableFieldOk(data: seq<Byte>, base: int, i: int, register: bool, p: Prefix, isNull: bool, fid: int, cid: int, ver: int)
    requires ParsePrefix(data, base, i) == Ok(p) && p.fieldType == Portable
    requires ReadBool(data, p.after) == Ok(isNull)
    requires ReadInt(data, p.after + 1) == Ok(fid) && ReadInt(data, p.after + 1 + INT_SIZE_IN_BYTES) == Ok(cid)
    requires register && !isNull ==> ReadInt(data, p.after + 1 + 2 * INT_SIZE_IN_BYTES) == Ok(ver)
    ensures var followed := register && !isNull;
            ParseField(data, base, i, register) ==
            Ok(FieldHeader(FieldDefinition(i, p.name, Portable, fid, cid), !isNull, followed,
                           if followed then Some(NestedRef(fid, cid, ver, p.after + 1 + 3 * INT_SIZE_IN_BYTES)) else None))
  {
    ParseFieldByType(data, base, i, register, p);
    PortableRecordOk(data, i, p, register, isNull, fid, cid, ver);
  }

  /** A Portable record whose null flag and ids can be read, and its version when it is followed. */
  lemma PortableRecordOk(data: seq<Byte>, i: int, p: Prefix, register: bool, isNull: bool, fid: int, cid: int, ver: int)
    requires p.fieldType == Portable
    requires ReadBool(data, p.after) == Ok(isNull)
    requires ReadInt(data, p.after + 1) == Ok(fid) && ReadInt(data, p.after + 1 + INT_SIZE_IN_BYTES) == Ok(cid)
    requires register && !isNull ==> ReadInt(data, p.after + 1 + 2 * INT_SIZE_IN_BYTES) == Ok(ver)
    ensures var followed := register && !isNull;
            PortableRecord(data, i, p, register) ==
            Ok(FieldHeader(FieldDefinition(i, p.name, Portable, fid, cid), !isNull, followed,
                           if followed then Some(NestedRef(fid, cid, ver, p.after + 1 + 3 * INT_SIZE_IN_BYTES)) else None))
  {
  }

  /** What the writer puts after a Portable-array field's tag, before the element positions: the length k and the factory and class ids. */
  function EncodeArrayHead(k: int, fid: int, cid: int): (bs: seq<Byte>)
    requires IsInt32(k) && IsInt32(fid) && IsInt32(cid)
    ensures |bs| == 3 * INT_SIZE_IN_BYTES
  {
    EncodeInt(k) + EncodeInt(fid) + EncodeInt(cid)
  }

  /** The writer's side of an empty Portable array (k <= 0): its ids are read, nothing is followed and the flag is cleared. */
  lemma ParseEncodedEmptyArray(data: seq<Byte>, prefix: seq<Byte>, base: int, i: int, name: Name,
                               k: int, fid: int, cid: int, register: bool, suffix: seq<Byte>)
    requires ReadInt(prefix, base + 4 * i) == Ok(|prefix|)
    requires |name| < 0x8000 && IsInt32(k) && IsInt32(fid) && IsInt32(cid) && k <= 0
    requires data == prefix + EncodeStart(name, PortableArray) + (EncodeArrayHead(k, fid, cid) + suffix)
    ensures ParseField(data, base, i, register) ==
            Ok(FieldHeader(FieldDefinition(i, name, PortableArray, fid, cid), false, false, None))
  {
    var head := prefix + EncodeStart(name, PortableArray);
    ParseEncodedPrefix(prefix, base, i, name, PortableArray, EncodeArrayHead(k, fid, cid) + suffix);
    ArrayHeadReads(head, k, fid, cid, suffix);
    ArrayFieldOk(data, base, i, register, Prefix(name, PortableArray, |head|), k, fid, cid, 0, 0);
  }

  /**
   * The writer's side of a non-empty Portable array: after k and the ids comes the position
   * `first` of the first element, where that element's version is read; the field is
   * followed into the payload right after that version, whatever the flag.
   */
  lemma ParseEncodedArray(data: seq<Byte>, prefix: seq<Byte>, base: int, i: int, name: Name,
                          k: int, fid: int, cid: int, first: int, ver: int, register: bool, suffix: seq<Byte>)
    requires ReadInt(prefix, base + 4 * i) == Ok(|prefix|)
    requires |name| < 0x8000 && IsInt32(k) && IsInt32(fid) && IsInt32(cid) && IsInt32(first) && k > 0
    requires data == prefix + EncodeStart(name, PortableArray) + (EncodeArrayHead(k, fid, cid) + (EncodeInt(first) + suffix))
    requires ReadInt(data, first) == Ok(ver)
    ensures ParseField(data, base, i, register) ==
            Ok(FieldHeader(FieldDefinition(i, name, PortableArray, fid, cid), true, register,
                           Some(NestedRef(fid, cid, ver, first + INT_SIZE_IN_BYTES))))
  {
    var head := prefix + EncodeStart(name, PortableArray);
    ParseEncodedPrefix(prefix, base, i, name, PortableArray, EncodeArrayHead(k, fid, cid) + (EncodeInt(first) + suffix));
    ArrayHeadReads(head, k, fid, cid, EncodeInt(first) + suffix);
    ReadIntAt(data, |head| + 3 * INT_SIZE_IN_BYTES, first);
    ArrayFieldOk(data, base, i, register, Prefix(name, PortableArray, |head|), k, fid, cid, first, ver);
  }

  /** A Portable-array field whose record start, k and ids can be read and, when k > 0, the first element's position and version. */
  lemma ArrayFieldOk(data: seq<Byte>, base: int, i: int, register: bool, p: Prefix, k: int, fid: int, cid: int, first: int, ver: int)
    requires ParsePrefix(data, base, i) == Ok(p) && p.fieldType == PortableArray
    requires ReadInt(data, p.after) == Ok(k)
    requires ReadInt(data, p.after + INT_SIZE_IN_BYTES) == Ok(fid) && ReadInt(data, p.after + 2 * INT_SIZE_IN_BYTES) == Ok(cid)
    requires k > 0 ==> ReadInt(data, p.after + 3 * INT_SIZE_IN_BYTES) == Ok(first) && ReadInt(data, first) == Ok(ver)
    ensures var fd := FieldDefinition(i, p.name, PortableArray, fid, cid);
            ParseField(data, base, i, register) ==
            Ok(if k > 0 then FieldHeader(fd, true, register, Some(NestedRef(fid, cid, ver, first + INT_SIZE_IN_BYTES)))
               else FieldHeader(fd, false, false, None))
  {
    ParseFieldByType(data, base, i, register, p);
  }

  /** The reads of a Portable array's k and ids written after `head`. */
  lemma ArrayHeadReads(head: seq<Byte>, k: int, fid: int, cid: int, suffix: seq<Byte>)
    requires IsInt32(k) && IsInt32(fid) && IsInt32(cid)
    ensures var data := head + (EncodeArrayHead(k, fid, cid) + suffix);
            var q := |head|;
            && ReadInt(data, q) == Ok(k)
            && ReadInt(data, q + INT_SIZE_IN_BYTES) == Ok(fid)
            && ReadInt(data, q + 2 * INT_SIZE_IN_BYTES) == Ok(cid)
  {
    var data := head + (EncodeArrayHead(k, fid, cid) + suffix);
    var q := |head|;
    ReadIntAt(data, q, k);
    ReadIntAt(data, q + INT_SIZE_IN_BYTES, fid);
    ReadIntAt(data, q + 2 * INT_SIZE_IN_BYTES, cid);
  }

  /**
   * Field `i` read with the registering flag `register` accumulated so far: its name and
   * type, then the rest of its record by type; any other type is malformed.
   */
  function ParseField(data: seq<Byte>, base: int, i: int, register: bool): (r: Result<FieldHeader>)
    ensures ParsePrefix(data, base, i).Err? ==> r.Err?
    ensures ParsePrefix(data, base, i).Ok? && BranchOf(ParsePrefix(data, base, i).value.fieldType) == Reject ==> r == Err(MalformedData)
    ensures r.Ok? ==> ParsePrefix(data, base, i).Ok? && r.value.fd.index == i &&
                      r.value.fd.name == ParsePrefix(data, base, i).value.name &&
                      r.value.fd.fieldType == ParsePrefix(data, base, i).value.fieldType
    ensures r.Ok? ==> r.value.fd.fieldType == Portable || r.value.fd.fieldType == PortableArray
    ensures r.Ok? ==> (r.value.resolved <==> KnownOnWire(data, ParsePrefix(data, base, i).value))
    ensures r.Ok? ==> r.value.register == (register && r.value.resolved)
    ensures r.Ok? && r.value.fd.fieldType == Portable ==> (r.value.nested.Some? <==> register && r.value.resolved)
    ensures r.Ok? && r.value.fd.fieldType == PortableArray ==> (r.value.nested.Some? <==> r.value.resolved)
    ensures r.Ok? && r.value.nested.Some? ==>
              r.value.nested.value.factoryId == r.value.fd.factoryId && r.value.nested.value.classId == r.value.fd.classId
  {
    var p :- ParsePrefix(data, base, i);
    match BranchOf(p.fieldType)
    case Reject => Err(MalformedData)
    case NestedPortable => PortableRecord(data, i, p, register)
    case NestedArray => ArrayRecord(data, i, p, register)
  }

  /**
   * Where on the wire a parsed field's identity and nested payload come from: for a
   * Portable, the ids follow the null flag and, when taken, the version and then the
   * payload; for a Portable array, the ids follow k and the first element's position
   * points at its version, followed by its payload.
   */
  lemma ParseFieldLayout(data: seq<Byte>, base: int, i: int, register: bool)
    requires ParseField(data, base, i, register).Ok?
    ensures var q := ParsePrefix(data, base, i).value.after;
            var h := ParseField(data, base, i, register).value;
            h.fd.fieldType == Portable ==>
              && ReadInt(data, q + 1) == Ok(h.fd.factoryId)
              && ReadInt(data, q + 1 + INT_SIZE_IN_BYTES) == Ok(h.fd.classId)
              && (h.nested.Some? ==>
                    && ReadInt(data, q + 1 + 2 * INT_SIZE_IN_BYTES) == Ok(h.nested.value.version)
                    && h.nested.value.pos == q + 1 + 3 * INT_SIZE_IN_BYTES)
    ensures var q := ParsePrefix(data, base, i).value.after;
            var h := ParseField(data, base, i, register).value;
            h.fd.fieldType == PortableArray ==>
              && ReadInt(data, q + INT_SIZE_IN_BYTES) == Ok(h.fd.factoryId)
              && ReadInt(data, q + 2 * INT_SIZE_IN_BYTES) == Ok(h.fd.classId)
              && (h.nested.Some? ==>
                    && ReadInt(data, q + 3 * INT_SIZE_IN_BYTES) == Ok(h.nested.value.pos - INT_SIZE_IN_BYTES)
                    && ReadInt(data, h.nested.value.pos - INT_SIZE_IN_BYTES) == Ok(h.nested.value.version))
  {
    var p := ParsePrefix(data, base, i).value;
    if p.fieldType == Portable {
      assert ParseField(data, base, i, register) == PortableRecord(data, i, p, register);
    } else {
      assert ParseField(data, base, i, register) == ArrayRecord(data, i, p, register);
    }
  }

  /**
   * The converse fails: with the flag clear a non-null Portable's version is never read, so
   * a record that ends right after the class id (name length 0, tag 0, not null, factory
   * id 1, class id 2) parses with the flag clear and is malformed with it set.
   */
  lemma ParseFieldFlagMatters()
    ensures var data: seq<Byte> := [0, 0, 0, 4, 0, 0, 0, 0, 0, 0, 0, 1, 0, 0, 0, 2];
            && ParseField(data, 0, 0, false) == Ok(FieldHeader(FieldDefinition(0, [], Portable, 1, 2), true, false, None))
            && ParseField(data, 0, 0, true) == Err(MalformedData)
  {
    var data: seq<Byte> := [0, 0, 0, 4, 0, 0, 0, 0, 0, 0, 0, 1, 0, 0, 0, 2];
    FlagMattersReads(data);
    assert ParseField(data, 0, 0, false) == PortableRecord(data, 0, Prefix([], Portable, 7), false);
    assert ParseField(data, 0, 0, true) == PortableRecord(data, 0, Prefix([], Portable, 7), true);
  }

  /** The reads of the record in ParseFieldFlagMatters, one at a time. */
  lemma FlagMattersReads(data: seq<Byte>)
    requires data == [0, 0, 0, 4, 0, 0, 0, 0, 0, 0, 0, 1, 0, 0, 0, 2]
    ensures ParsePrefix(data, 0, 0) == Ok(Prefix([], Portable, 7))
    ensures ReadBool(data, 7) == Ok(false)
    ensures ReadInt(data, 8) == Ok(1) && ReadInt(data, 12) == Ok(2)
    ensures ReadInt(data, 16).Err?
  {
    FlagMattersIds(data);
    ReadEncodedInt([], 4, data[4..]);
    assert [] + EncodeInt(4) + data[4..] == data;
    ReadEncodedShort(data[..4], 0, data[6..]);
    assert data[..4] + EncodeShort(0) + data[6..] == data;
  }

  /** The factory and class ids of that record. */
  lemma FlagMattersIds(data: seq<Byte>)
    requires data == [0, 0, 0, 4, 0, 0, 0, 0, 0, 0, 0, 1, 0, 0, 0, 2]
    ensures ReadInt(data, 8) == Ok(1) && ReadInt(data, 12) == Ok(2)
  {
    ReadEncodedInt(data[..8], 1, data[12..]);
    assert data[..8] + EncodeInt(1) + data[12..] == data;
    ReadEncodedInt(data[..12], 2, []);
    assert data[..12] + EncodeInt(2) + [] == data;
  }

  /** Reading a field with the flag set succeeds only where reading it with the flag clear does, with the same definition. */
  lemma ParseFieldUnflagged(data: seq<Byte>, base: int, i: int, register: bool)
    requires ParseField(data, base, i, register).Ok?
    ensures ParseField(data, base, i, false).Ok?
    ensures ParseField(data, base, i, false).value.fd == ParseField(data, base, i, register).value.fd
    ensures ParseField(data, base, i, false).value.resolved == ParseField(data, base, i, register).value.resolved
  {
  }

  /** Field `i` leaves its nested schema known: not a null Portable, not an empty Portable array. */
  predicate FieldResolved(data: seq<Byte>, base: int, i: int) {
    ParseField(data, base, i, false).Ok? && ParseField(data, base, i, false).value.resolved
  }

  /** Every field from `i` up to `count` of the table at `base` is resolved. */
  predicate AllResolved(data: seq<Byte>, base: int, i: int, count: int) {
    forall j :: i <= j < count ==> FieldResolved(data, base, j)
  }

  /** No field of the payload at `pos` is a null Portable or a Portable array with k <= 0. */
  predicate Complete(data: seq<Byte>, pos: int) {
    ReadFieldCount(data, pos).Ok? && AllResolved(data, pos + 2 * INT_SIZE_IN_BYTES, 0, ReadFieldCount(data, pos).value)
  }

  /**
   * Completeness read off the wire: there is a field count, and every field of the table
   * parses and is a non-null Portable or a Portable array with k > 0.
   */
  lemma CompleteOnWire(data: seq<Byte>, pos: int)
    ensures var base := pos + 2 * INT_SIZE_IN_BYTES;
            Complete(data, pos) <==>
              && ReadFieldCount(data, pos).Ok?
              && forall j :: 0 <= j < ReadFieldCount(data, pos).value ==>
                   ParseField(data, base, j, false).Ok? && KnownOnWire(data, ParsePrefix(data, base, j).value)
  {
    var base := pos + 2 * INT_SIZE_IN_BYTES;
    if ReadFieldCount(data, pos).Ok? {
      forall j | 0 <= j < ReadFieldCount(data, pos).value
        ensures FieldResolved(data, base, j) <==>
                  ParseField(data, base, j, false).Ok? && KnownOnWire(data, ParsePrefix(data, base, j).value)
      {
      }
    }
  }

  /** How the field loop reads a nested payload: given the registry and where the payload sits, the run of reading it. */
  type NestedReader = (Contexts, NestedRef) -> Run<ClassDefinition>

  /** `read_class_definition(data_in, factory_id, class_id, version)` with the cursor at `pos`. */
  function Extract(reg: Contexts, pv: int, data: seq<Byte>, pos: int, fid: int, cid: int, ver: int, fuel: nat): Run<ClassDefinition>
    decreases fuel, 1
  {
    match ReadFieldCount(data, pos)
    case Err(e) => Run(Err(e), reg)
    case Ok(count) =>
      var fields := FieldsFrom(reg, data, pos + 2 * INT_SIZE_IN_BYTES, 0, count, [], true, Nested(pv, data, fuel));
      match fields.result
      case Err(e) => Run(Err(e), fields.reg)
      case Ok((fs, register)) =>
        var cd := ClassDefinition(fid, cid, ver, fs);
        if register then RegisterIn(fields.reg, pv, cd) else Run(Ok(cd), fields.reg)
  }

  /** The recursive call on a nested payload, one level of fuel down; with no fuel left it is TooDeep. */
  function Nested(pv: int, data: seq<Byte>, fuel: nat): NestedReader
    decreases fuel, 0
  {
    (r: Contexts, n: NestedRef) =>
      if fuel == 0 then Run(Err(TooDeep), r)
      else Extract(r, pv, data, n.pos, n.factoryId, n.classId, n.version, fuel - 1)
  }

  /** The field loop from index `i` on, with the fields built so far and the registering flag. */
  function FieldsFrom(reg: Contexts, data: seq<Byte>, base: int, i: int, count: int,
                      acc: seq<FieldDefinition>, register: bool, nested: NestedReader): Run<(seq<FieldDefinition>, bool)>
    decreases count - i
  {
    if i >= count then Run(Ok((acc, register)), reg)
    else
      var field := ReadFieldAt(reg, data, base, i, register, nested);
      match field.result
      case Err(e) => Run(Err(e), field.reg)
      case Ok((fd, register')) => FieldsFrom(field.reg, data, base, i + 1, count, acc + [fd], register', nested)
  }

  /** One iteration of the field loop: parse field `i`, then read its nested payload if it has one. */
  function ReadFieldAt(reg: Contexts, data: seq<Byte>, base: int, i: int, register: bool, nested: NestedReader): Run<(FieldDefinition, bool)>
  {
    match ParseField(data, base, i, register)
    case Err(e) => Run(Err(e), reg)
    case Ok(h) => FollowNested(reg, h, nested)
  }

  /** The second half of an iteration: the nested read a parsed field calls for, and the field it yields. */
  function FollowNested(reg: Contexts, h: FieldHeader, nested: NestedReader): Run<(FieldDefinition, bool)>
  {
    if h.nested.None? then Run(Ok((h.fd, h.register)), reg)
    else
      var inner := nested(reg, h.nested.value);
      match inner.result
      case Err(e) => Run(Err(e), inner.reg)
      case Ok(_) => Run(Ok((h.fd, h.register)), inner.reg)
  }

  /** The definition entry `i` of the offset table decodes to; the registering flag does not change it. */
  function Descriptor(data: seq<Byte>, base: int, i: int): (r: Result<FieldDefinition>)
    ensures r.Ok? ==> ParsePrefix(data, base, i).Ok? && BranchOf(ParsePrefix(data, base, i).value.fieldType) != Reject
    ensures r.Ok? ==> r.value.index == i && (r.value.fieldType == Portable || r.value.fieldType == PortableArray)
  {
    var h :- ParseField(data, base, i, false);
    Ok(h.fd)
  }

  /** A decoder of offset-table entries, from entry number to definition. */
  type EntryDecoder = int -> Result<FieldDefinition>

  /** The decoder of the offset table starting at `base`. */
  function Entries(data: seq<Byte>, base: int): EntryDecoder {
    k => Descriptor(data, base, k)
  }

  /**
   * The definitions that entries `i` up to `count` decode to, in table order; one entry
   * that does not decode makes the whole table fail.
   */
  function DecodeAll(decode: EntryDecoder, i: int, count: int): (r: Result<seq<FieldDefinition>>)
    ensures r.Ok? ==> |r.value| == (if i < count then count - i else 0)
    decreases count - i
  {
    if i >= count then Ok([])
    else
      var fd :- decode(i);
      var rest :- DecodeAll(decode, i + 1, count);
      Ok([fd] + rest)
  }

  /** Entry `k` of a decoded table from `i` is what entry `i + k` decodes to. */
  lemma {:induction false} DecodeAllAt(decode: EntryDecoder, i: int, count: int)
    requires DecodeAll(decode, i, count).Ok?
    ensures var fs := DecodeAll(decode, i, count).value;
            forall k :: 0 <= k < |fs| ==> decode(i + k) == Ok(fs[k])
    decreases count - i
  {
    if i < count {
      DecodeAllAt(decode, i + 1, count);
      var fd := decode(i).value;
      var rest := DecodeAll(decode, i + 1, count).value;
      assert DecodeAll(decode, i, count).value == [fd] + rest;
      forall k | 0 < k < 1 + |rest| ensures decode(i + k) == Ok(([fd] + rest)[k]) {
        assert decode(i + 1 + (k - 1)) == Ok(rest[k - 1]);
      }
    }
  }

  /** Hence entry `k` of a decoded offset table is field number `k`, of a Portable or Portable-array type. */
  lemma TableShape(data: seq<Byte>, base: int, count: int)
    requires DecodeAll(Entries(data, base), 0, count).Ok?
    ensures var fs := DecodeAll(Entries(data, base), 0, count).value;
            && (forall k :: 0 <= k < |fs| ==> Descriptor(data, base, k) == Ok(fs[k]))
            && (forall k :: 0 <= k < |fs| ==> fs[k].index == k)
            && (forall k :: 0 <= k < |fs| ==> fs[k].fieldType == Portable || fs[k].fieldType == PortableArray)
  {
    var fs := DecodeAll(Entries(data, base), 0, count).value;
    DecodeAllAt(Entries(data, base), 0, count);
    forall k | 0 <= k < |fs| ensures Descriptor(data, base, k) == Ok(fs[k]) {
      assert Entries(data, base)(0 + k) == Ok(fs[k]);
    }
  }
}
