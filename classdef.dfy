/**
 * Portable schemas as values: field types, field definitions and class definitions.
 * A class definition is identified by (factory id, class id, version); its fields are
 * kept in index order.  The schema builder is not modelled separately: the extractor
 * appends field definitions in index order and builds the value directly.
 */
module ClassDef {
  import opened Common
  import opened Wire

  /** The version value that means "not set yet". */
  const UNSET_VERSION: int := -1

  /** The Portable field types, with their wire tags 0 to 19 in declaration order. */
  datatype FieldType =
    | Portable | ByteField | BooleanField | CharField | ShortField | IntField | LongField
    | FloatField | DoubleField | Utf
    | PortableArray | ByteArray | BooleanArray | CharArray | ShortArray | IntArray | LongArray
    | FloatArray | DoubleArray | UtfArray

  /** The field types indexed by their tag. */
  const FIELD_TYPES: seq<FieldType> :=
    [Portable, ByteField, BooleanField, CharField, ShortField, IntField, LongField,
     FloatField, DoubleField, Utf,
     PortableArray, ByteArray, BooleanArray, CharArray, ShortArray, IntArray, LongArray,
     FloatArray, DoubleArray, UtfArray]

  function TagOf(ft: FieldType): Byte {
    match ft
    case Portable => 0 case ByteField => 1 case BooleanField => 2 case CharField => 3
    case ShortField => 4 case IntField => 5 case LongField => 6 case FloatField => 7
    case DoubleField => 8 case Utf => 9 case PortableArray => 10 case ByteArray => 11
    case BooleanArray => 12 case CharArray => 13 case ShortArray => 14 case IntArray => 15
    case LongArray => 16 case FloatArray => 17 case DoubleArray => 18 case UtfArray => 19
  }

  /**
   * `FieldType.reverse[tag]`: the field type a tag byte names.  A byte that names no
   * field type is malformed data (the dictionary lookup would fail).
   */
  function FromTag(tag: Byte): (r: Result<FieldType>)
    ensures r.Ok? ==> TagOf(r.value) == tag
    ensures r.Err? ==> r.error == MalformedData
  {
    if tag < |FIELD_TYPES| then Ok(FIELD_TYPES[tag]) else Err(MalformedData)
  }

  /** Every field type's tag decodes back to it, and no two field types share a tag. */
  lemma FromTagOfTag(ft: FieldType)
    ensures FromTag(TagOf(ft)) == Ok(ft)
  {
  }

  type Name = seq<Byte>

  /** One field of a schema: its ordinal, raw name, type and, for nested Portables, identity. */
  datatype FieldDefinition = FieldDefinition(index: int, name: Name, fieldType: FieldType, factoryId: int, classId: int)

  /** A schema: its identity and its fields in index order. */
  datatype ClassDefinition = ClassDefinition(factoryId: int, classId: int, version: int, fields: seq<FieldDefinition>)

  /** `set_version_if_not_set(v)`: an unset version becomes `v`, a set one is kept. */
  function StampVersion(cd: ClassDefinition, v: int): (r: ClassDefinition)
    ensures r.version == (if cd.version == UNSET_VERSION then v else cd.version)
    ensures r.(version := cd.version) == cd
  {
    if cd.version == UNSET_VERSION then cd.(version := v) else cd
  }

  /**
   * `get_field(name)`: the field with that name.  Definitions hold their fields in a
   * name-keyed dictionary, so when a name occurs twice the later field is the one found.
   */
  function GetField(cd: ClassDefinition, name: Name): (r: Option<FieldDefinition>)
    ensures r.Some? ==> r.value in cd.fields && r.value.name == name
    ensures r.Some? ==> exists j :: 0 <= j < |cd.fields| && cd.fields[j] == r.value &&
                          forall j' :: j < j' < |cd.fields| ==> cd.fields[j'].name != name
    ensures r.None? <==> forall f :: f in cd.fields ==> f.name != name
  {
    FindLast(cd.fields, name)
  }

  function FindLast(fields: seq<FieldDefinition>, name: Name): (r: Option<FieldDefinition>)
    ensures r.Some? ==> r.value in fields && r.value.name == name
    ensures r.Some? ==> exists j :: 0 <= j < |fields| && fields[j] == r.value &&
                          forall j' :: j < j' < |fields| ==> fields[j'].name != name
    ensures r.None? <==> forall f :: f in fields ==> f.name != name
  {
    if fields == [] then None
    else if fields[|fields| - 1].name == name then Some(fields[|fields| - 1])
    else FindLast(fields[..|fields| - 1], name)
  }
}
