# Portable context of the Hazelcast Python client, in Dafny

This project models the Portable serialization context of the Hazelcast Python client
(`hazelcast/serialization/portable/context.py`). That context is the client's schema registry for
Portable objects. It keeps one `ClassDefinitionContext` per factory id. Each of those holds:

- the current version set for each class id, or -1 when none was set;
- the class definitions accepted so far, keyed by `(class id, version)`.

On top of that registry the context offers:

- the delegating getters and setters;
- registration of a class definition, which stamps an unset version, shares an equal definition
  already stored and rejects a conflicting one;
- lookup, and the lookup half of `lookup_or_register_class_definition`;
- `read_class_definition`, the schema extractor. It walks a Portable payload's offset table and
  recurses into nested Portable and Portable-array fields. It registers the derived definition only
  when no nested schema was left unknown;
- `get_field_definition`, which resolves a dotted field path across nested schemas through the
  registry.

In three places the code behaves otherwise than a reader of the Portable format might expect, and the
model follows the code:

- A field whose type is neither Portable nor Portable array aborts extraction with MalformedData
  (context.py:72-73). Leaf fields are not skipped.
- A non-null Portable field is recursed into only while the accumulated registering flag is still
  set (context.py:50-58). So after an earlier null Portable or empty Portable array, later Portable
  fields are not recursed into and their version word is not even read: a record cut short there
  parses with the flag clear and is malformed with it set. Portable-array fields are not affected:
  one with k > 0 is recursed into whatever the flag (context.py:65-69).
- An extraction that fails part-way keeps whatever the nested reads registered before the failure.
  The code has no rollback (ExtractFailureKeeps).

Module layout, following the source's structure:

- `Common`: `Result`, `Option`, `Outcome` and the error kinds.
- `Wire`: the fixed-width reads of the object data input, over a byte buffer, big-endian.
- `ClassDef`: field types with their tags, field and class definitions, `set_version_if_not_set` and
  `get_field`.
- `Registry`: one context's state as a value, the functions that give each operation its meaning,
  and the class `ClassDefinitionContext`, whose methods update its two dictionaries in place and are
  proved against those functions.
- `PortableState`: the whole registry as a value. Every operation first gets or creates its
  factory's context.
- `Extractor`: `read_class_definition` as a value function with a fuel bound.
- `ExtractorProps`: what the extractor guarantees:
  - the derived definition's fields are exactly the decoded offset table;
  - it is registered exactly when the payload is complete;
  - the registry only ever grows.
- `ExtractorExamples`: whole payloads that read successfully, down to one with a nested Portable
  read into an empty registry.
- `FieldPath`: splitting at '.', and the walk of `get_field_definition`.
- `Portable`: the class `PortableContext`. Its factory dictionary is a mutable map of
  `ClassDefinitionContext` objects. Each method is proved to leave those objects as the value
  functions say, and to keep every context filed under its own factory id with the Portable
  version.

## Model

| member | source | states |
|---|---|---|
| Wire.SignedBigEndian | hazelcast/serialization/portable/context.py:39 | the two's-complement value of a big-endian byte run lies within the range of that many bytes |
| Wire.ReadInt | hazelcast/serialization/portable/context.py:36 | a 4-byte read succeeds exactly when the 4 bytes are inside the buffer, yields a signed 32-bit value, and otherwise fails with MalformedData |
| Wire.ReadShort | hazelcast/serialization/portable/context.py:42 | a 2-byte read succeeds exactly when in range and yields a signed 16-bit value |
| Wire.ReadByte | hazelcast/serialization/portable/context.py:46 | a byte read succeeds exactly when in range and yields that byte |
| Wire.ReadBool | hazelcast/serialization/portable/context.py:50 | a boolean read succeeds exactly when in range and is true exactly for a non-zero byte |
| Wire.ReadBytes | hazelcast/serialization/portable/context.py:43-44 | reading a name of `len` bytes succeeds exactly when `len` is not negative and the bytes are inside the buffer, with `len` bytes |
| Wire.ReadEncodedInt | hazelcast/serialization/portable/context.py:39 | decoding the 4-byte encoding of any 32-bit integer, wherever it sits in a buffer, gives the integer back |
| Wire.ReadIntAt | hazelcast/serialization/portable/context.py:39 | a 4-byte read gives `v` wherever the four bytes read are the encoding of `v` |
| Wire.ReadIntExtended | hazelcast/serialization/portable/context.py:39 | a read that fits in a buffer gives the same after bytes are appended to it |
| Wire.ReadIntShifted | hazelcast/serialization/portable/context.py:39 | a read gives the same after bytes are put in front of the buffer, at the position shifted by their number |
| Wire.ReadEncodedShort | hazelcast/serialization/portable/context.py:42 | decoding the 2-byte encoding of any 16-bit integer gives it back |
| ClassDef.FromTag | hazelcast/serialization/portable/context.py:47 | a decoded tag names the field type whose tag it is; a byte naming no field type is MalformedData |
| ClassDef.FromTagOfTag | hazelcast/serialization/portable/context.py:47 | every field type's tag decodes back to that type, so tags are unique |
| ClassDef.StampVersion | hazelcast/serialization/portable/context.py:152 | an unset (-1) version becomes the context's version, a set one is kept, and nothing else changes |
| ClassDef.GetField | hazelcast/serialization/portable/context.py:97 | a found field is one of the definition's fields with that name and no later field has that name; nothing is found exactly when no field has that name |
| Registry.SetVersion | hazelcast/serialization/portable/context.py:134-140 | a first set or a repeat with the same version succeeds and records it, changing no other class's version and no definition; another version is VersionConflict |
| Registry.RegisterDef | hazelcast/serialization/portable/context.py:149-162 | another factory's definition is InvalidFactory; success returns the version-stamped definition, which is then found under its key, and only that key can change while stored keys keep their entries; a free key always succeeds; failure means the key holds a different definition |
| Registry.RegisterTwice | hazelcast/serialization/portable/context.py:153-162 | registering the same definition twice is idempotent: the second call returns the same definition and changes nothing |
| Registry.ClassDefinitionContext.constructor | hazelcast/serialization/portable/context.py:122-126 | a new context has the given factory id and version, and both dictionaries empty |
| Registry.ClassDefinitionContext.GetClassVersion | hazelcast/serialization/portable/context.py:130-131 | defined as ClassVersionOf on the context's state: the recorded version of the class id, or -1 when none was set (no contract of its own) |
| Registry.ClassDefinitionContext.SetClassVersion | hazelcast/serialization/portable/context.py:134-140 | the dictionaries end as SetVersion says; a conflict reports VersionConflict and leaves them untouched |
| Registry.ClassDefinitionContext.Lookup | hazelcast/serialization/portable/context.py:142-143 | defined as LookupDef on the context's state: the definition stored under (class id, version), if any (no contract of its own) |
| Registry.ClassDefinitionContext.Register | hazelcast/serialization/portable/context.py:145-164 | the dictionaries and the result are as RegisterDef says; a failure leaves them untouched |
| PortableState.WithContext | hazelcast/serialization/portable/context.py:114-118 | getting a factory's context inserts an empty one carrying the Portable version when absent, keeps an existing one, and changes what no lookup sees |
| PortableState.AsWrittenEveryLookupFails | hazelcast/serialization/portable/context.py:118 | as written, a miss on the factory dictionary raises and inserts nothing (see Findings) |
| PortableState.GetContextAsWritten | hazelcast/serialization/portable/context.py:114-118 | as written, getting a factory's context succeeds exactly when it is already in the dictionary and otherwise fails with WrongArgumentCount |
| PortableState.SetVersionIn | hazelcast/serialization/portable/context.py:22-23 | set_class_version through the factory's context: passes exactly when the class has no version or the same one, then records it; fails with VersionConflict otherwise; no other class's version and no lookup changes |
| PortableState.RegisterIn | hazelcast/serialization/portable/context.py:80-81 | registering in the definition's own factory context: the stamped definition is then found by lookup; a free key always succeeds; on success no other (factory, class, version) key changes what lookup finds, and no class version changes; a failure is IncompatibleDefinitions and leaves only the created context; nothing stored is lost |
| PortableState.LookupIn | hazelcast/serialization/portable/context.py:25-26 | lookup through the factory's context: a definition is found exactly when that factory's context stores one under (class id, version), and an unknown factory has none |
| PortableState.ClassVersionIn | hazelcast/serialization/portable/context.py:19-20 | the version recorded for the class in its factory's context, and -1 when the factory or the class has none |
| Extractor.BranchOf | hazelcast/serialization/portable/context.py:48-73 | Portable fields take the nested-Portable branch, Portable-array fields the array branch, every other type the error |
| Extractor.BranchAsWritten | hazelcast/serialization/portable/context.py:48-73 | as written, only Portable fields take the nested branch and no field type ever takes the array branch |
| Extractor.ArrayFieldRejectedAsWritten | hazelcast/serialization/portable/context.py:59 | as written, a Portable-array field falls into the error branch (see Findings) |
| Extractor.ReadFieldCount | hazelcast/serialization/portable/context.py:33-36 | the field count is read exactly when the final-offset word and the count both lie inside the buffer, and it is the 32-bit word four bytes after the payload start |
| Extractor.ParsePrefix | hazelcast/serialization/portable/context.py:39-47 | the start of field `i`'s record; its meaning is stated by ParsePrefixLayout and ParseEncodedPrefix |
| Extractor.ParsePrefixLayout | hazelcast/serialization/portable/context.py:39-47 | a parsed record start has the name length read at the position given by table entry `i`, the name as the bytes after it and the type whose tag is the byte after the name |
| Extractor.ParseEncodedPrefix | hazelcast/serialization/portable/context.py:39-47 | a table entry pointing at an encoded name length, a name and a type tag parses back to that name and type, with the rest of the record right after the tag |
| Extractor.EncodeStart | hazelcast/serialization/portable/context.py:42-46 | the writer's record start (name length, name, tag) is two bytes longer than the name plus the tag byte |
| Extractor.PortableRecord | hazelcast/serialization/portable/context.py:48-58 | a Portable record: resolved exactly when its null byte is 0; the ids are the two words after the null byte; the nested payload is followed exactly when still registering and resolved, with the version in the next word and the payload right after it |
| Extractor.ArrayRecord | hazelcast/serialization/portable/context.py:59-71 | a Portable-array record: resolved exactly when k > 0; the ids are the two words after k; a resolved array is followed whatever the flag, at the position in the next word plus four, its version being the word at that position |
| Extractor.EncodePortable | hazelcast/serialization/portable/context.py:50-57 | the writer's Portable record after the tag is the null byte, factory id and class id, plus the version only when not null: 13 bytes for a non-null record, 9 for a null one |
| Extractor.ParseEncodedPortable | hazelcast/serialization/portable/context.py:39-58 | the writer-side round trip of a Portable record at table entry `i`: it parses to the field with that index, name and ids; resolved exactly when the null byte is 0; followed exactly when the flag is set and the null byte is 0, with the encoded version and the payload right after it; the flag after it is set exactly when it is followed; a null record carries no version word and parses whatever follows it |
| Extractor.ParseEncodedNullPortable | hazelcast/serialization/portable/context.py:39-56 | a null Portable record that ends after its class id, followed by anything or nothing, parses with any flag to the field with that index, name and ids, unresolved, not followed, and clearing the flag |
| Extractor.EncodedPortableRecordOk | hazelcast/serialization/portable/context.py:48-58 | once the record start parses, the Portable record the writer put after it parses back to the header ParseEncodedPortable states |
| Extractor.PortableRecordReads | hazelcast/serialization/portable/context.py:50-57 | the null byte, the two ids and, for a non-null record, the version of an encoded Portable record read back at their offsets |
| Extractor.ParseFieldByType | hazelcast/serialization/portable/context.py:47-73 | once the record start parses, a Portable field is parsed by PortableRecord and a Portable-array field by ArrayRecord |
| Extractor.PortableFieldOk | hazelcast/serialization/portable/context.py:39-58 | a Portable record whose null byte and ids can be read parses to the field header they determine; the version word is needed only when the field is followed (flag set and not null) |
| Extractor.PortableRecordOk | hazelcast/serialization/portable/context.py:48-58 | PortableRecord yields the header its null byte and ids determine, needing the version word only when the field is followed |
| Extractor.EncodeArrayHead | hazelcast/serialization/portable/context.py:60-62 | the writer's array head after the tag (k, factory id, class id) is 12 bytes long |
| Extractor.ParseEncodedEmptyArray | hazelcast/serialization/portable/context.py:59-71 | the writer-side round trip of a Portable array with k <= 0: it parses to the field with that index, name and ids, unresolved, not followed, and clearing the flag |
| Extractor.ParseEncodedArray | hazelcast/serialization/portable/context.py:59-69 | the writer-side round trip of a Portable array with k > 0: it parses to the field with that index, name and ids, resolved, keeping the flag, and followed at the encoded first-element position with the version read there and the payload four bytes on |
| Extractor.ArrayFieldOk | hazelcast/serialization/portable/context.py:59-71 | a Portable-array record whose reads succeed parses to the header those reads determine, for k > 0 and for k <= 0 |
| Extractor.ArrayHeadReads | hazelcast/serialization/portable/context.py:60-62 | the three words of an encoded array head read back at their offsets |
| Extractor.ParseField | hazelcast/serialization/portable/context.py:39-73 | a parsed field has index `i` and the name and type ParsePrefix reads at entry `i`, of Portable or Portable-array type; any other readable tag is MalformedData; it is resolved exactly when KnownOnWire holds (null byte 0 for a Portable, k > 0 for an array); the flag after it is the flag before it and resolved; a Portable is followed exactly when still registering and resolved, an array exactly when resolved, under the field's own ids |
| Extractor.ParseFieldLayout | hazelcast/serialization/portable/context.py:48-69 | the field's factory and class ids and, when it is followed, the nested version and payload position are the words at the offsets the record layout gives, for Portable and for Portable-array fields |
| Extractor.ParseFieldUnflagged | hazelcast/serialization/portable/context.py:50-58 | a field that parses with the registering flag set also parses with it clear, with the same definition and the same resolved bit |
| Extractor.ParseFieldFlagMatters | hazelcast/serialization/portable/context.py:50-58 | the converse fails: a non-null Portable record ending after its class id parses with the flag clear and is MalformedData with it set, since only then is the version read |
| Extractor.Descriptor | hazelcast/serialization/portable/context.py:74 | the definition an offset-table entry decodes to has that entry's index and a Portable or Portable-array type |
| Extractor.DecodeAll | hazelcast/serialization/portable/context.py:38 | a decoded table has one definition per entry, none for a count that is not positive |
| Extractor.DecodeAllAt | hazelcast/serialization/portable/context.py:38-39 | entry `k` of a decoded table is what entry `i + k` decodes to |
| Extractor.TableShape | hazelcast/serialization/portable/context.py:38-74 | entry `k` of a decoded offset table is field number `k`, of a Portable or Portable-array type |
| Extractor.CompleteOnWire | hazelcast/serialization/portable/context.py:33-71 | a payload is complete exactly when its field count is readable and every field parses with no Portable null flag set and no Portable array with k <= 0 |
| Extractor.Extract | hazelcast/serialization/portable/context.py:28-78 | read_class_definition with the cursor at the payload start; what a successful run yields is stated by ExtractShape, ExtractGrows, ExtractRegistersNested and ExtractFieldCount, and when a run succeeds by ExtractFlat, ExtractEmptyPayload, ExtractOneNested, ExtractOverEmptyNested and ExtractNestedExample (see Left out) |
| Extractor.Nested | hazelcast/serialization/portable/context.py:58-69 | the recursive read of a nested payload, one fuel level down (TooDeep with none left); its meaning is stated by NestedReadRegisters, NestedGrows and ExtractOneNested |
| Extractor.FieldsFrom | hazelcast/serialization/portable/context.py:38-74 | the field loop from field `i` on; what a successful loop yields is stated by FieldsFromTable, FieldsFromFlag, FieldsFromGrows and FieldsFromRegistersNested, and when it succeeds by FieldsFromFlat (see Left out) |
| Extractor.ReadFieldAt | hazelcast/serialization/portable/context.py:39-74 | one iteration: parse field `i`, then make the nested read it calls for; its meaning is stated by ReadFieldAtOk, ReadFieldAtDescriptor, ReadFieldAtFlag, ReadFieldAtNested and ReadFieldAtGrows |
| Extractor.FollowNested | hazelcast/serialization/portable/context.py:56-69 | the second half of an iteration: no read for a field that is not followed, else the nested read, whose failure aborts the loop; its meaning is stated by ReadFieldAtNested and FieldsFromPassOn |
| ExtractorProps.ReadFieldAtOk | hazelcast/serialization/portable/context.py:39-74 | a successful iteration parsed the field and hands on its definition and the flag after it |
| ExtractorProps.ReadFieldAtDescriptor | hazelcast/serialization/portable/context.py:74 | the definition a successful iteration hands on is the one its table entry decodes to |
| ExtractorProps.ReadFieldAtFlag | hazelcast/serialization/portable/context.py:50-71 | the flag a successful iteration hands on, combined with the fields up to a later `j`, is the flag it started with combined with the fields from `i` |
| ExtractorProps.ReadFieldAtNested | hazelcast/serialization/portable/context.py:56-69 | a successful iteration over a followed field made a successful nested read and ends in the registry that read left |
| ExtractorProps.FieldsFromPassOn | hazelcast/serialization/portable/context.py:38-74 | a successful loop with a field `j` further on made a successful first iteration, is still filed, and reaches `j` with the same flag |
| ExtractorProps.FieldsFromFlat | hazelcast/serialization/portable/context.py:38-74 | when every remaining field parses with the flag that reaches it and none is followed, the loop succeeds with the registry unchanged, exactly the decoded table appended, and the flag set exactly when it started set and every field was resolved |
| ExtractorProps.ExtractFlat | hazelcast/serialization/portable/context.py:28-78 | a payload whose fields are all parsed and none followed yields the decoded table: it is registered when every field is resolved, which with at least one field cannot happen (FlatFirstUnresolved), and otherwise returned with the registry unchanged |
| ExtractorProps.FlatFirstUnresolved | hazelcast/serialization/portable/context.py:50-58 | in a flat payload with at least one field, the first field is not resolved, so the payload is not registered: a resolved first field is reached with the flag set and is followed |
| ExtractorProps.ExtractFailureKeeps | hazelcast/serialization/portable/context.py:38-74 | there is no rollback: when the field loop fails, the extraction fails with the loop's error and the registry the loop left, nested registrations included, which has only grown |
| ExtractorProps.FieldsFromTable | hazelcast/serialization/portable/context.py:38-74 | the field loop appends exactly the decoded table entries, in index order |
| ExtractorProps.FieldsFromFlag | hazelcast/serialization/portable/context.py:50-71 | a successful field loop ends registering exactly when it started registering and every field was resolved, that is, parsed with KnownOnWire: no Portable whose null byte is set and no Portable array with k <= 0 |
| ExtractorProps.ExtractGrows | hazelcast/serialization/portable/context.py:28-78 | an extraction, nested reads included, never loses or changes a stored definition or a class version, and keeps the registry filed and consistent |
| ExtractorProps.NestedGrows | hazelcast/serialization/portable/context.py:58 | the recursive nested read grows the registry at whatever payload it is pointed to |
| ExtractorProps.FieldsFromGrows | hazelcast/serialization/portable/context.py:38-74 | the field loop grows the registry whenever its nested reads do |
| ExtractorProps.ExtractShape | hazelcast/serialization/portable/context.py:28-78 | success gives the requested factory and class with exactly the decoded table as fields; a complete payload (CompleteOnWire) is registered, version stamped, and is then found by lookup; an incomplete one keeps its version and adds nothing beyond the nested reads |
| ExtractorProps.NestedReadRegisters | hazelcast/serialization/portable/context.py:58 | a successful recursive read of a complete nested payload leaves its definition, with the fields its own table decodes to and its version stamped, found by lookup |
| ExtractorProps.FieldsFromRegistersNested | hazelcast/serialization/portable/context.py:38-74 | if the field loop succeeds, every complete nested payload it followed is registered at its end, the nested identity and version being those read at the field |
| ExtractorProps.ExtractRegistersNested | hazelcast/serialization/portable/context.py:28-78 | after a successful extraction, the definition of every complete nested payload a field led to is registered, whether or not the outer definition is |
| ExtractorProps.ExtractFieldCount | hazelcast/serialization/portable/context.py:36-38 | a successful extraction has exactly field_count fields, none for a non-positive count, field `j` having index `j` |
| ExtractorProps.ExtractRejectsLeafTags | hazelcast/serialization/portable/context.py:72-73 | a successful extraction met only Portable and Portable-array tags |
| ExtractorProps.ExtractEmptyPayload | hazelcast/serialization/portable/context.py:28-78 | extracting a payload with zero fields is exactly registering the empty definition of the requested identity |
| ExtractorExamples.ExtractNoFields | hazelcast/serialization/portable/context.py:33-38 | a payload whose field count reads 0, wherever it sits, is exactly registering the empty definition |
| ExtractorExamples.ExtractOneNested | hazelcast/serialization/portable/context.py:28-78 | a payload with one field followed into a nested payload that reads successfully registers the one-field definition in the registry the nested read left |
| ExtractorExamples.NestedExample | hazelcast/serialization/portable/context.py:33-58 | the example payload with one Portable field and an empty nested payload is 36 bytes plus the name |
| ExtractorExamples.ExampleOuterHeader | hazelcast/serialization/portable/context.py:33-58 | the example payload declares one field, which parses as a non-null Portable followed into position 28 plus the name length |
| ExtractorExamples.ExamplePrefix | hazelcast/serialization/portable/context.py:33-39 | the example's first three words read back as the final position, the field count 1 and the table entry 12 |
| ExtractorExamples.ExampleInnerHeader | hazelcast/serialization/portable/context.py:33-36 | the example's nested payload declares no fields |
| ExtractorExamples.ExtractOverEmptyNested | hazelcast/serialization/portable/context.py:28-81 | into an empty registry, a payload whose one field is followed into a payload with no fields, under another factory and class, succeeds with the stamped outer definition, and both definitions are then found by lookup |
| ExtractorExamples.ExtractNestedExample | hazelcast/serialization/portable/context.py:28-81 | reading the example payload into an empty registry, with any fuel of at least 1, succeeds with the stamped one-field definition, and both it and the stamped empty nested definition are then found by lookup |
| FieldPath.Split | hazelcast/serialization/portable/context.py:99 | splitting at '.' gives at least one separator-free part, which joined back give the name, with several parts exactly when the name has a dot |
| FieldPath.SplitJoin | hazelcast/serialization/portable/context.py:99 | splitting a join of separator-free parts gives the parts back |
| FieldPath.Walk | hazelcast/serialization/portable/context.py:101-111 | a found field is named by the last segment; the only errors are UnknownField and UnresolvedNestedSchema; the walk changes what no lookup sees; along a path of any length its result is stated by WalkChain |
| FieldPath.Chain | hazelcast/serialization/portable/context.py:102-111 | the schemas `ds` and fields `fs` a walk passes: field `j` is segment `j` of schema `j`, and schema `j + 1` is the one lookup finds for it |
| FieldPath.WalkFirstStep | hazelcast/serialization/portable/context.py:102-111 | one step of the walk: the last segment ends it with that field; a missing field is UnknownField; an unregistered nested schema is UnresolvedNestedSchema; otherwise the walk goes on from the nested schema with the rest of the path |
| FieldPath.ChainTail | hazelcast/serialization/portable/context.py:102-111 | a chain without its first step is a chain from its second schema, in the registry after the first lookup |
| FieldPath.WalkChain | hazelcast/serialization/portable/context.py:101-111 | along a chain of any length, the walk yields the last segment's field in the last schema, or UnknownField where a segment is missing, or UnresolvedNestedSchema where a nested schema is not registered |
| FieldPath.ResolvePath | hazelcast/serialization/portable/context.py:96-112 | a dotted name that is not itself a field resolves, along any chain of nested schemas, to the last segment's field, or to UnknownField or UnresolvedNestedSchema at the step where the chain breaks |
| FieldPath.ResolveField | hazelcast/serialization/portable/context.py:96-112 | a whole-name hit is returned at once; a dotless miss is None; otherwise a found field is named by the last segment; errors only for a dotted name that is not itself a field; along a path of any length its result is stated by ResolvePath |
| FieldPath.ResolveNested | hazelcast/serialization/portable/context.py:96-112 | `a.b` that is not itself a field resolves to field `b` of the schema registered for field `a` |
| FieldPath.ResolveUnknownSegment | hazelcast/serialization/portable/context.py:107-108 | a path whose first segment is not a field raises UnknownField and changes nothing |
| FieldPath.ResolveUnregistered | hazelcast/serialization/portable/context.py:109-111 | a path whose first segment's nested schema is not registered raises UnresolvedNestedSchema |
| Portable.PortableContext.constructor | hazelcast/serialization/portable/context.py:11-14 | a new context has the given Portable version and no factory contexts |
| Portable.PortableContext.GetPortableVersion | hazelcast/serialization/portable/context.py:16-17 | the Portable version, which every held context carries |
| Portable.PortableContext.ValidFiled | hazelcast/serialization/portable/context.py:114-118 | every held context is filed under its own factory id and carries the Portable version |
| Portable.PortableContext.GetClassDefContext | hazelcast/serialization/portable/context.py:114-118 | returns the factory's context, afterwards held in the dictionary: an existing context object is returned and the dictionary is left as it was; for a new factory a fresh context is inserted under it and nothing else changes; the registry changes as WithContext says |
| Portable.PortableContext.GetClassVersion | hazelcast/serialization/portable/context.py:19-20 | the class version as ClassVersionIn gives it |
| Portable.PortableContext.SetClassVersion | hazelcast/serialization/portable/context.py:22-23 | the outcome and the new registry are as SetVersionIn says |
| Portable.PortableContext.LookupClassDefinition | hazelcast/serialization/portable/context.py:25-26 | the definition LookupIn finds |
| Portable.PortableContext.RegisterClassDefinition | hazelcast/serialization/portable/context.py:80-81 | the result and the new registry are as RegisterIn says |
| Portable.PortableContext.LookupOrRegisterClassDefinition | hazelcast/serialization/portable/context.py:83-87 | the definition registered under the portable's declared version, or else the Portable version |
| Portable.PortableContext.ReadClassDefinition | hazelcast/serialization/portable/context.py:28-78 | the result and the new registry are as Extract says |
| Portable.PortableContext.ReadFields | hazelcast/serialization/portable/context.py:36-74 | the loop's fields, final flag and registry are as FieldsFrom says |
| Portable.PortableContext.ReadField | hazelcast/serialization/portable/context.py:39-74 | one iteration, including its nested read, as ReadFieldAt says |
| Portable.PortableContext.ReadNested | hazelcast/serialization/portable/context.py:56-69 | the nested read a parsed field calls for, one fuel level down, as FollowNested says |
| Portable.PortableContext.GetFieldDefinition | hazelcast/serialization/portable/context.py:96-112 | the result and the new registry are as ResolveField says |

## Left out

- The lock in `ClassDefinitionContext` and all concurrency: the model is single-threaded.
- `serialization_service`: stored by the constructor and never used by this code.
- The writer half of `lookup_or_register_class_definition` (context.py:89-92): the portable's write procedure and the writer are outside this file.
- Portable.PortableContext.LookupOrRegisterClassDefinition: the portable is given by its factory id, class id and declared version (`util.get_portable_version`); it returns None where the source would write the portable to build and register a definition.
- Registry.ClassDefinitionContext.Register: definitions are values, so the aliasing of the source is not modelled. The source stamps the caller's own object in place (context.py:152), even when the registration then fails (context.py:159-161), and stores that object itself, not a copy (context.py:155).
- Byte order: the extractor's reads are modelled big-endian.
- Field names: raw bytes; name encoding and decoding are not modelled.
- Exception messages: errors are plain error kinds, without their text.
- The unreachable branches of `register` (context.py:147-148 and 163-164): a None argument, and a stored value that is not a class definition.
- Extractor.Extract: success is stated as an all-inputs converse only for payloads with no followed field (ExtractFlat; with at least one field such a payload is returned unregistered, by FlatFirstUnresolved), and otherwise for one followed field (ExtractOneNested, ExtractOverEmptyNested, ExtractNestedExample). With several followed fields, success depends on what each nested read finds in the registry the previous reads left, and on the fuel; no general converse is stated.
- Extractor.FieldsFrom: success is stated as a converse only when no remaining field is followed (FieldsFromFlat), for the same reason as for Extract.
- Wire.ReadBytes: its contract states only the length of the run read; that the run is the buffer's bytes at the position is left to its body.
- Portable.PortableContext.ReadClassDefinition: the nesting depth is bounded by a fuel parameter, and running out of it is the TooDeep error. The source would keep recursing, on a buffer whose offsets lead back into itself, until Python's recursion limit.
- The cursor position after a nested read is not modelled: every field seeks to an absolute position from the offset table, so the source never reads it.
- `classdef.py` is not part of this model. A field definition holds exactly the five values the extractor gives it. As in a name-keyed dictionary, the later of two same-named fields is the one `get_field` finds. The version -1 means "not set".

## Findings

| source | as written | input that shows it | evidently intended | confidence | as-written member | corrected member |
|---|---|---|---|---|---|---|
| hazelcast/serialization/portable/context.py:118 | `ClassDefinitionContext(factory_id)` passes one argument to a two-parameter constructor, and the context is never stored in `_class_defs` | any call for a factory id not yet present, e.g. `get_class_version(1, 1)` on a new context; since nothing is ever stored, that is every call | create the context with the Portable version and insert it when absent | not executed | PortableState.AsWrittenEveryLookupFails | PortableState.WithContext |
| hazelcast/serialization/portable/context.py:59 | `elif type == FieldType.PORTABLE_ARRAY` compares the builtin `type`, which never equals a tag | any payload with a Portable-array field (tag 10): extraction raises "Malformed portable class definition" | compare `field_type` with the array tag | not executed | Extractor.ArrayFieldRejectedAsWritten | Extractor.BranchOf |
