/**
 * What the schema extractor guarantees: the shape of the definition it derives, when it
 * registers it, and that it never loses or replaces anything the registry already holds.
 */
module ExtractorProps {
  import opened Common
  import opened Wire
  import opened ClassDef
  import opened Registry
  import opened PortableState
  import opened Extractor

  /** A field iteration that succeeds parsed the field and hands on its definition and the new flag. */
  lemma ReadFieldAtOk(reg: Contexts, data: seq<Byte>, base: int, i: int, register: bool, nested: NestedReader)
    requires ReadFieldAt(reg, data, base, i, register, nested).result.Ok?
    ensures ParseField(data, base, i, register).Ok?
    ensures ReadFieldAt(reg, data, base, i, register, nested).result.value ==
              (ParseField(data, base, i, register).value.fd, ParseField(data, base, i, register).value.register)
  {
  }

  /** The definition a successful iteration hands on is the one its table entry decodes to. */
  lemma ReadFieldAtDescriptor(reg: Contexts, data: seq<Byte>, base: int, i: int, register: bool, nested: NestedReader)
    requires ReadFieldAt(reg, data, base, i, register, nested).result.Ok?
    ensures Descriptor(data, base, i) == Ok(ReadFieldAt(reg, data, base, i, register, nested).result.value.0)
  {
    ReadFieldAtOk(reg, data, base, i, register, nested);
    ParseFieldUnflagged(data, base, i, register);
  }

  /** One step of the field loop: a successful iteration continues from the next index. */
  lemma FieldsFromStep(reg: Contexts, data: seq<Byte>, base: int, i: int, count: int,
                       acc: seq<FieldDefinition>, register: bool, nested: NestedReader)
    requires i < count
    requires ReadFieldAt(reg, data, base, i, register, nested).result.Ok?
    ensures var field := ReadFieldAt(reg, data, base, i, register, nested);
            FieldsFrom(reg, data, base, i, count, acc, register, nested) ==
            FieldsFrom(field.reg, data, base, i + 1, count, acc + [field.result.value.0], field.result.value.1, nested)
  {
  }

  /** One step of the table: a decoded entry followed by the decoded rest. */
  lemma DecodeAllStep(decode: EntryDecoder, i: int, count: int, fd: FieldDefinition, rest: seq<FieldDefinition>)
    requires i < count
    requires decode(i) == Ok(fd)
    requires DecodeAll(decode, i + 1, count) == Ok(rest)
    ensures DecodeAll(decode, i, count) == Ok([fd] + rest)
  {
  }

  lemma AppendAssoc<T>(front: seq<T>, x: T, back: seq<T>)
    ensures front + [x] + back == front + ([x] + back)
  {
  }

  /**
   * A successful field loop appends, in table order, exactly the definitions the remaining
   * offset-table entries decode to.
   */
  lemma {:induction false} FieldsFromTable(reg: Contexts, data: seq<Byte>, base: int, i: int, count: int,
                                           acc: seq<FieldDefinition>, register: bool, nested: NestedReader)
    requires FieldsFrom(reg, data, base, i, count, acc, register, nested).result.Ok?
    ensures DecodeAll(Entries(data, base), i, count).Ok?
    ensures FieldsFrom(reg, data, base, i, count, acc, register, nested).result.value.0 == acc + DecodeAll(Entries(data, base), i, count).value
    decreases count - i
  {
    if i < count {
      var field := ReadFieldAt(reg, data, base, i, register, nested);
      ReadFieldAtDescriptor(reg, data, base, i, register, nested);
      var fd := field.result.value.0;
      FieldsFromStep(reg, data, base, i, count, acc, register, nested);
      FieldsFromTable(field.reg, data, base, i + 1, count, acc + [fd], field.result.value.1, nested);
      var rest := DecodeAll(Entries(data, base), i + 1, count).value;
      DecodeAllStep(Entries(data, base), i, count, fd, rest);
      AppendAssoc(acc, fd, rest);
    }
  }

  /** A successful field loop ends registering exactly when it started so and every remaining field is resolved. */
  lemma {:induction false} FieldsFromFlag(reg: Contexts, data: seq<Byte>, base: int, i: int, count: int,
                                          acc: seq<FieldDefinition>, register: bool, nested: NestedReader)
    requires FieldsFrom(reg, data, base, i, count, acc, register, nested).result.Ok?
    ensures FieldsFrom(reg, data, base, i, count, acc, register, nested).result.value.1 <==> register && AllResolved(data, base, i, count)
    decreases count - i
  {
    if i < count {
      var field := ReadFieldAt(reg, data, base, i, register, nested);
      ReadFieldAtOk(reg, data, base, i, register, nested);
      ParseFieldUnflagged(data, base, i, register);
      var (fd, register') := field.result.value;
      FieldsFromFlag(field.reg, data, base, i + 1, count, acc + [fd], register', nested);
      assert FieldResolved(data, base, i) == ParseField(data, base, i, register).value.resolved;
      if register && AllResolved(data, base, i + 1, count) && FieldResolved(data, base, i) {
        forall j | i <= j < count ensures FieldResolved(data, base, j) {
          if j > i { assert AllResolved(data, base, i + 1, count); }
        }
      }
    }
  }

  /** A step from registry `a` to registry `b` adds but never loses, and keeps a filed or valid registry so. */
  predicate Grows(a: Contexts, b: Contexts, pv: int) {
    && Extends(a, b)
    && (RegistryValid(a, pv) ==> RegistryValid(b, pv))
    && (Filed(a, pv) ==> Filed(b, pv))
  }

  /** A nested reader that only ever grows the registry it is given. */
  ghost predicate ReaderGrows(nested: NestedReader, pv: int) {
    forall r, n :: Grows(r, nested(r, n).reg, pv)
  }

  lemma GrowsTransitive(a: Contexts, b: Contexts, c: Contexts, pv: int)
    requires Grows(a, b, pv) && Grows(b, c, pv)
    ensures Grows(a, c, pv)
  {
    ExtendsTransitive(a, b, c);
  }

  /**
   * The extractor only ever adds to the registry: every context and every stored
   * definition survives with its value, and a filed (or valid) registry stays so.
   */
  lemma {:induction false} ExtractGrows(reg: Contexts, pv: int, data: seq<Byte>, pos: int, fid: int, cid: int, ver: int, fuel: nat)
    ensures Grows(reg, Extract(reg, pv, data, pos, fid, cid, ver, fuel).reg, pv)
    decreases fuel, 1
  {
    match ReadFieldCount(data, pos)
    case Err(_) =>
    case Ok(count) =>
      var base := pos + 2 * INT_SIZE_IN_BYTES;
      NestedGrows(pv, data, fuel);
      FieldsFromGrows(reg, pv, data, base, 0, count, [], true, Nested(pv, data, fuel));
      var fields := FieldsFrom(reg, data, base, 0, count, [], true, Nested(pv, data, fuel));
      if fields.result.Ok? && fields.result.value.1 {
        var cd := ClassDefinition(fid, cid, ver, fields.result.value.0);
        GrowsTransitive(reg, fields.reg, RegisterIn(fields.reg, pv, cd).reg, pv);
      }
  }

  /** The recursive nested reader grows the registry, whatever payload it is pointed at. */
  lemma {:induction false} NestedGrows(pv: int, data: seq<Byte>, fuel: nat)
    ensures ReaderGrows(Nested(pv, data, fuel), pv)
    decreases fuel, 0
  {
    forall r, n ensures Grows(r, Nested(pv, data, fuel)(r, n).reg, pv) {
      if fuel > 0 {
        ExtractGrows(r, pv, data, n.pos, n.factoryId, n.classId, n.version, fuel - 1);
      }
    }
  }

  /** The field loop grows the registry when its nested reader does. */
  lemma {:induction false} FieldsFromGrows(reg: Contexts, pv: int, data: seq<Byte>, base: int, i: int, count: int,
                                           acc: seq<FieldDefinition>, register: bool, nested: NestedReader)
    requires ReaderGrows(nested, pv)
    ensures Grows(reg, FieldsFrom(reg, data, base, i, count, acc, register, nested).reg, pv)
    decreases count - i
  {
    if i < count {
      var field := ReadFieldAt(reg, data, base, i, register, nested);
      assert Grows(reg, field.reg, pv);
      if field.result.Ok? {
        var (fd, register') := field.result.value;
        FieldsFromGrows(field.reg, pv, data, base, i + 1, count, acc + [fd], register', nested);
        GrowsTransitive(reg, field.reg, FieldsFrom(field.reg, data, base, i + 1, count, acc + [fd], register', nested).reg, pv);
      }
    }
  }

  /**
   * A successful extraction yields a definition of the requested factory and class whose
   * fields are exactly what the offset table's entries decode to, in table order.  It is
   * registered, with its version stamped, exactly when the payload is complete; otherwise
   * it keeps the version it was read with and nothing is added beyond what the field
   * loop's nested reads registered.
   */
  lemma ExtractShape(reg: Contexts, pv: int, data: seq<Byte>, pos: int, fid: int, cid: int, ver: int, fuel: nat)
    requires Filed(reg, pv)
    requires Extract(reg, pv, data, pos, fid, cid, ver, fuel).result.Ok?
    ensures ReadFieldCount(data, pos).Ok?
    ensures DecodeAll(Entries(data, pos + 2 * INT_SIZE_IN_BYTES), 0, ReadFieldCount(data, pos).value).Ok?
    ensures var cd := Extract(reg, pv, data, pos, fid, cid, ver, fuel).result.value;
            && cd.factoryId == fid && cd.classId == cid
            && cd.fields == DecodeAll(Entries(data, pos + 2 * INT_SIZE_IN_BYTES), 0, ReadFieldCount(data, pos).value).value
    ensures var run := Extract(reg, pv, data, pos, fid, cid, ver, fuel);
            Complete(data, pos) ==>
              && run.result.value.version == (if ver == UNSET_VERSION then pv else ver)
              && LookupIn(run.reg, pv, fid, cid, run.result.value.version) == Some(run.result.value)
    ensures var run := Extract(reg, pv, data, pos, fid, cid, ver, fuel);
            !Complete(data, pos) ==>
              && run.result.value.version == ver
              && run.reg == FieldsFrom(reg, data, pos + 2 * INT_SIZE_IN_BYTES, 0, ReadFieldCount(data, pos).value, [], true, Nested(pv, data, fuel)).reg
  {
    var count := ReadFieldCount(data, pos).value;
    var base := pos + 2 * INT_SIZE_IN_BYTES;
    var nested := Nested(pv, data, fuel);
    FieldsFromTable(reg, data, base, 0, count, [], true, nested);
    FieldsFromFlag(reg, data, base, 0, count, [], true, nested);
    NestedGrows(pv, data, fuel);
    FieldsFromGrows(reg, pv, data, base, 0, count, [], true, nested);
  }

  /**
   * What reading the nested payload `n` leaves in registry `r` when that payload is
   * complete: the definition of the nested identity whose fields are the nested payload's
   * decoded table, with its version stamped, is found by lookup.
   */
  predicate NestedRegistered(r: Contexts, pv: int, data: seq<Byte>, n: NestedRef) {
    && ReadFieldCount(data, n.pos).Ok?
    && DecodeAll(Entries(data, n.pos + 2 * INT_SIZE_IN_BYTES), 0, ReadFieldCount(data, n.pos).value).Ok?
    && var fields := DecodeAll(Entries(data, n.pos + 2 * INT_SIZE_IN_BYTES), 0, ReadFieldCount(data, n.pos).value).value;
       var cd := StampVersion(ClassDefinition(n.factoryId, n.classId, n.version, fields), pv);
       LookupIn(r, pv, n.factoryId, n.classId, cd.version) == Some(cd)
  }

  /** A registry that extends another still finds every definition the other found. */
  lemma ExtendsKeepsLookup(a: Contexts, b: Contexts, pv: int, f: int, c: int, v: int)
    requires Extends(a, b)
    requires LookupIn(a, pv, f, c, v).Some?
    ensures LookupIn(b, pv, f, c, v) == LookupIn(a, pv, f, c, v)
  {
    assert f in a;
  }

  lemma NestedRegisteredKept(a: Contexts, b: Contexts, pv: int, data: seq<Byte>, n: NestedRef)
    requires Extends(a, b)
    requires NestedRegistered(a, pv, data, n)
    ensures NestedRegistered(b, pv, data, n)
  {
    var fields := DecodeAll(Entries(data, n.pos + 2 * INT_SIZE_IN_BYTES), 0, ReadFieldCount(data, n.pos).value).value;
    var cd := StampVersion(ClassDefinition(n.factoryId, n.classId, n.version, fields), pv);
    ExtendsKeepsLookup(a, b, pv, n.factoryId, n.classId, cd.version);
  }

  /** A successful recursive read of a complete nested payload registers its definition. */
  lemma NestedReadRegisters(r: Contexts, pv: int, data: seq<Byte>, fuel: nat, n: NestedRef)
    requires Filed(r, pv)
    requires Nested(pv, data, fuel)(r, n).result.Ok?
    requires Complete(data, n.pos)
    ensures NestedRegistered(Nested(pv, data, fuel)(r, n).reg, pv, data, n)
  {
    assert fuel > 0;
    ExtractShape(r, pv, data, n.pos, n.factoryId, n.classId, n.version, fuel - 1);
  }

  /** A nested reader that registers every complete payload it reads successfully. */
  ghost predicate ReaderRegisters(nested: NestedReader, pv: int, data: seq<Byte>) {
    forall r, n :: Filed(r, pv) && nested(r, n).result.Ok? && Complete(data, n.pos) ==> NestedRegistered(nested(r, n).reg, pv, data, n)
  }

  /** The recursive nested reader is such a reader. */
  lemma NestedRegisters(pv: int, data: seq<Byte>, fuel: nat)
    ensures ReaderRegisters(Nested(pv, data, fuel), pv, data)
  {
    forall r, n | Filed(r, pv) && Nested(pv, data, fuel)(r, n).result.Ok? && Complete(data, n.pos)
      ensures NestedRegistered(Nested(pv, data, fuel)(r, n).reg, pv, data, n)
    {
      NestedReadRegisters(r, pv, data, fuel, n);
    }
  }

  /**
   * A successful field loop from `i` registers the nested payload that field `j` points at
   * when that payload is complete and the reader registers what it reads.  Field `j` is
   * reached with the flag `flag`, which is still set exactly when the loop started
   * registering and every field before it was resolved.
   */
  lemma {:induction false} FieldsFromRegistersNested(reg: Contexts, pv: int, data: seq<Byte>, base: int, i: int, count: int,
                                                     acc: seq<FieldDefinition>, register: bool, nested: NestedReader,
                                                     j: int, flag: bool, n: NestedRef)
    requires ReaderGrows(nested, pv) && ReaderRegisters(nested, pv, data)
    requires Filed(reg, pv)
    requires i <= j < count
    requires flag == (register && AllResolved(data, base, i, j))
    requires ParseField(data, base, j, flag).Ok? && ParseField(data, base, j, flag).value.nested == Some(n)
    requires Complete(data, n.pos)
    ensures FieldsFrom(reg, data, base, i, count, acc, register, nested).result.Ok? ==>
              NestedRegistered(FieldsFrom(reg, data, base, i, count, acc, register, nested).reg, pv, data, n)
    decreases j - i
  {
    if !FieldsFrom(reg, data, base, i, count, acc, register, nested).result.Ok? {
    } else if i == j {
      assert AllResolved(data, base, i, i);
      FieldsFromRegistersHere(reg, pv, data, base, i, count, acc, register, nested, n);
    } else {
      FieldsFromPassOn(reg, pv, data, base, i, count, acc, register, nested, j);
      var field := ReadFieldAt(reg, data, base, i, register, nested);
      var fd, register' := field.result.value.0, field.result.value.1;
      assert Filed(field.reg, pv);
      assert flag == (register' && AllResolved(data, base, i + 1, j));
      FieldsFromRegistersNested(field.reg, pv, data, base, i + 1, count, acc + [fd], register', nested, j, flag, n);
      assert FieldsFrom(reg, data, base, i, count, acc, register, nested) ==
             FieldsFrom(field.reg, data, base, i + 1, count, acc + [fd], register', nested);
    }
  }

  /**
   * The step of FieldsFromRegistersNested: a successful loop that has not reached field
   * `j` yet goes on from a successful first iteration, in a registry still filed, with the
   * flag that reaches `j` unchanged.
   */
  lemma FieldsFromPassOn(reg: Contexts, pv: int, data: seq<Byte>, base: int, i: int, count: int,
                         acc: seq<FieldDefinition>, register: bool, nested: NestedReader, j: int)
    requires ReaderGrows(nested, pv)
    requires Filed(reg, pv)
    requires i < j < count
    requires FieldsFrom(reg, data, base, i, count, acc, register, nested).result.Ok?
    ensures ReadFieldAt(reg, data, base, i, register, nested).result.Ok?
    ensures var field := ReadFieldAt(reg, data, base, i, register, nested);
            && Filed(field.reg, pv)
            && FieldsFrom(reg, data, base, i, count, acc, register, nested) ==
               FieldsFrom(field.reg, data, base, i + 1, count, acc + [field.result.value.0], field.result.value.1, nested)
            && (field.result.value.1 && AllResolved(data, base, i + 1, j)) == (register && AllResolved(data, base, i, j))
  {
    FieldsFromFirst(reg, data, base, i, count, acc, register, nested);
    ReadFieldAtGrows(reg, pv, data, base, i, register, nested);
    ReadFieldAtFlag(reg, data, base, i, j, register, nested);
  }

  /** The base case: field `i` itself points at the complete nested payload. */
  lemma FieldsFromRegistersHere(reg: Contexts, pv: int, data: seq<Byte>, base: int, i: int, count: int,
                                acc: seq<FieldDefinition>, register: bool, nested: NestedReader, n: NestedRef)
    requires ReaderGrows(nested, pv) && ReaderRegisters(nested, pv, data)
    requires Filed(reg, pv)
    requires FieldsFrom(reg, data, base, i, count, acc, register, nested).result.Ok?
    requires i < count
    requires ParseField(data, base, i, register).Ok? && ParseField(data, base, i, register).value.nested == Some(n)
    requires Complete(data, n.pos)
    ensures NestedRegistered(FieldsFrom(reg, data, base, i, count, acc, register, nested).reg, pv, data, n)
  {
    var field := ReadFieldAt(reg, data, base, i, register, nested);
    FieldsFromFirst(reg, data, base, i, count, acc, register, nested);
    var (fd, register') := field.result.value;
    var rest := FieldsFrom(field.reg, data, base, i + 1, count, acc + [fd], register', nested);
    ReadFieldAtNested(reg, data, base, i, register, nested, n);
    assert NestedRegistered(field.reg, pv, data, n);
    FieldsFromGrows(field.reg, pv, data, base, i + 1, count, acc + [fd], register', nested);
    NestedRegisteredKept(field.reg, rest.reg, pv, data, n);
  }

  /** A successful field loop that has a field left made a successful first iteration and went on from it. */
  lemma FieldsFromFirst(reg: Contexts, data: seq<Byte>, base: int, i: int, count: int,
                        acc: seq<FieldDefinition>, register: bool, nested: NestedReader)
    requires i < count
    requires FieldsFrom(reg, data, base, i, count, acc, register, nested).result.Ok?
    ensures ReadFieldAt(reg, data, base, i, register, nested).result.Ok?
    ensures var field := ReadFieldAt(reg, data, base, i, register, nested);
            FieldsFrom(reg, data, base, i, count, acc, register, nested) ==
            FieldsFrom(field.reg, data, base, i + 1, count, acc + [field.result.value.0], field.result.value.1, nested)
  {
  }

  /** One iteration grows the registry when its nested reader does. */
  lemma ReadFieldAtGrows(reg: Contexts, pv: int, data: seq<Byte>, base: int, i: int, register: bool, nested: NestedReader)
    requires ReaderGrows(nested, pv)
    ensures Grows(reg, ReadFieldAt(reg, data, base, i, register, nested).reg, pv)
  {
  }

  /** A successful iteration over a field with a nested payload made a successful nested read, which left the registry it ends with. */
  lemma ReadFieldAtNested(reg: Contexts, data: seq<Byte>, base: int, i: int, register: bool, nested: NestedReader, n: NestedRef)
    requires ReadFieldAt(reg, data, base, i, register, nested).result.Ok?
    requires ParseField(data, base, i, register).Ok? && ParseField(data, base, i, register).value.nested == Some(n)
    ensures nested(reg, n).result.Ok?
    ensures ReadFieldAt(reg, data, base, i, register, nested).reg == nested(reg, n).reg
  {
  }

  /** The flag a successful iteration hands on, when field `j` lies further on: still set there exactly when it was here and every field in between is resolved. */
  lemma ReadFieldAtFlag(reg: Contexts, data: seq<Byte>, base: int, i: int, j: int, register: bool, nested: NestedReader)
    requires ReadFieldAt(reg, data, base, i, register, nested).result.Ok?
    requires i < j
    ensures var register' := ReadFieldAt(reg, data, base, i, register, nested).result.value.1;
            (register' && AllResolved(data, base, i + 1, j)) == (register && AllResolved(data, base, i, j))
  {
    ReadFieldAtOk(reg, data, base, i, register, nested);
    ParseFieldUnflagged(data, base, i, register);
    AllResolvedFirst(data, base, i, j);
  }

  /** Every field from `i` to `j` is resolved exactly when field `i` is and every field after it up to `j` is. */
  lemma AllResolvedFirst(data: seq<Byte>, base: int, i: int, j: int)
    requires i < j
    ensures AllResolved(data, base, i, j) == (FieldResolved(data, base, i) && AllResolved(data, base, i + 1, j))
  {
  }

  /**
   * The point of the recursion: after a successful extraction, the definition of every
   * complete nested payload it was led to is registered, whether or not the outer
   * definition itself is.
   */
  lemma ExtractRegistersNested(reg: Contexts, pv: int, data: seq<Byte>, pos: int, fid: int, cid: int, ver: int, fuel: nat,
                               j: int, n: NestedRef)
    requires Filed(reg, pv)
    requires Extract(reg, pv, data, pos, fid, cid, ver, fuel).result.Ok?
    requires ReadFieldCount(data, pos).Ok? && 0 <= j < ReadFieldCount(data, pos).value
    requires ParseField(data, pos + 2 * INT_SIZE_IN_BYTES, j, AllResolved(data, pos + 2 * INT_SIZE_IN_BYTES, 0, j)).Ok?
    requires ParseField(data, pos + 2 * INT_SIZE_IN_BYTES, j, AllResolved(data, pos + 2 * INT_SIZE_IN_BYTES, 0, j)).value.nested == Some(n)
    requires Complete(data, n.pos)
    ensures NestedRegistered(Extract(reg, pv, data, pos, fid, cid, ver, fuel).reg, pv, data, n)
  {
    var count := ReadFieldCount(data, pos).value;
    var base := pos + 2 * INT_SIZE_IN_BYTES;
    var nested := Nested(pv, data, fuel);
    var fields := FieldsFrom(reg, data, base, 0, count, [], true, nested);
    NestedGrows(pv, data, fuel);
    NestedRegisters(pv, data, fuel);
    FieldsFromRegistersNested(reg, pv, data, base, 0, count, [], true, nested, j, AllResolved(data, base, 0, j), n);
    if fields.result.value.1 {
      var cd := ClassDefinition(fid, cid, ver, fields.result.value.0);
      NestedRegisteredKept(fields.reg, RegisterIn(fields.reg, pv, cd).reg, pv, data, n);
    }
  }

  /**
   * Hence a successful extraction has exactly `field_count` fields (none for a negative
   * count), field `j` carrying index `j` and a Portable or Portable-array type.
   */
  lemma ExtractFieldCount(reg: Contexts, pv: int, data: seq<Byte>, pos: int, fid: int, cid: int, ver: int, fuel: nat)
    requires Filed(reg, pv)
    requires Extract(reg, pv, data, pos, fid, cid, ver, fuel).result.Ok?
    ensures ReadFieldCount(data, pos).Ok?
    ensures var cd := Extract(reg, pv, data, pos, fid, cid, ver, fuel).result.value;
            var count := ReadFieldCount(data, pos).value;
            && |cd.fields| == (if count > 0 then count else 0)
            && (forall j :: 0 <= j < |cd.fields| ==> cd.fields[j].index == j)
            && (forall j :: 0 <= j < |cd.fields| ==> cd.fields[j].fieldType == Portable || cd.fields[j].fieldType == PortableArray)
  {
    ExtractShape(reg, pv, data, pos, fid, cid, ver, fuel);
    TableShape(data, pos + 2 * INT_SIZE_IN_BYTES, ReadFieldCount(data, pos).value);
  }

  /** A successful extraction saw only Portable and Portable-array tags: any other tag aborts it. */
  lemma ExtractRejectsLeafTags(reg: Contexts, pv: int, data: seq<Byte>, pos: int, fid: int, cid: int, ver: int, fuel: nat, j: int)
    requires Filed(reg, pv)
    requires Extract(reg, pv, data, pos, fid, cid, ver, fuel).result.Ok?
    requires ReadFieldCount(data, pos).Ok? && 0 <= j < ReadFieldCount(data, pos).value
    ensures ParsePrefix(data, pos + 2 * INT_SIZE_IN_BYTES, j).Ok?
    ensures BranchOf(ParsePrefix(data, pos + 2 * INT_SIZE_IN_BYTES, j).value.fieldType) != Reject
  {
    ExtractShape(reg, pv, data, pos, fid, cid, ver, fuel);
    var base := pos + 2 * INT_SIZE_IN_BYTES;
    var count := ReadFieldCount(data, pos).value;
    TableShape(data, base, count);
    var fs := DecodeAll(Entries(data, base), 0, count).value;
    assert Descriptor(data, base, j) == Ok(fs[j]);
  }

  /** A payload with no fields (its final offset, then a zero count) is an empty definition, and it is registered. */
  lemma ExtractEmptyPayload(reg: Contexts, pv: int, finalPosition: int, fid: int, cid: int, ver: int, fuel: nat)
    requires IsInt32(finalPosition)
    ensures Extract(reg, pv, EncodeInt(finalPosition) + EncodeInt(0), 0, fid, cid, ver, fuel) ==
            RegisterIn(reg, pv, ClassDefinition(fid, cid, ver, []))
  {
    var data := EncodeInt(finalPosition) + EncodeInt(0);
    ReadEncodedInt([], finalPosition, EncodeInt(0));
    assert [] + EncodeInt(finalPosition) + EncodeInt(0) == data;
    ReadEncodedInt(EncodeInt(finalPosition), 0, []);
    assert EncodeInt(finalPosition) + EncodeInt(0) + [] == data;
    assert ReadFieldCount(data, 0) == Ok(0);
  }

  /** Field `j` parses with the flag the loop from `i` reaches it with, and is not followed into a nested payload. */
  predicate FlatField(data: seq<Byte>, base: int, i: int, j: int, register: bool) {
    var h := ParseField(data, base, j, register && AllResolved(data, base, i, j));
    h.Ok? && h.value.nested.None?
  }

  /** Every field from `i` up to `count` is flat. */
  predicate FlatFields(data: seq<Byte>, base: int, i: int, count: int, register: bool) {
    forall j :: i <= j < count ==> FlatField(data, base, i, j, register)
  }

  /**
   * The converse of the loop lemmas where no nested read is made: when every remaining
   * field parses with the flag it is reached with and is not followed, the loop succeeds,
   * leaves the registry as it was, and yields the decoded table and the final flag.
   */
  lemma {:induction false} FieldsFromFlat(reg: Contexts, data: seq<Byte>, base: int, i: int, count: int,
                                          acc: seq<FieldDefinition>, register: bool, nested: NestedReader)
    requires FlatFields(data, base, i, count, register)
    ensures DecodeAll(Entries(data, base), i, count).Ok?
    ensures FieldsFrom(reg, data, base, i, count, acc, register, nested) ==
            Run(Ok((acc + DecodeAll(Entries(data, base), i, count).value, register && AllResolved(data, base, i, count))), reg)
    decreases count - i
  {
    if i < count {
      assert FlatField(data, base, i, i, register);
      assert AllResolved(data, base, i, i);
      var h := ParseField(data, base, i, register).value;
      assert ReadFieldAt(reg, data, base, i, register, nested) == Run(Ok((h.fd, h.register)), reg);
      var next := i + 1;
      forall j | next <= j < count ensures FlatField(data, base, next, j, h.register) {
        ReadFieldAtFlag(reg, data, base, i, j, register, nested);
        assert FlatField(data, base, i, j, register);
      }
      FieldsFromFlat(reg, data, base, next, count, acc + [h.fd], h.register, nested);
      FieldsFromStep(reg, data, base, i, count, acc, register, nested);
      ParseFieldUnflagged(data, base, i, register);
      var rest := DecodeAll(Entries(data, base), next, count).value;
      assert Entries(data, base)(i) == Ok(h.fd);
      DecodeAllStep(Entries(data, base), i, count, h.fd, rest);
      AppendAssoc(acc, h.fd, rest);
      ReadFieldAtFlag(reg, data, base, i, count, register, nested);
      assert (h.register && AllResolved(data, base, next, count)) == (register && AllResolved(data, base, i, count));
    } else {
      assert acc + [] == acc;
    }
  }

  /**
   * Hence an extraction whose fields are all flat succeeds unless it registers: it yields
   * the decoded table, registered exactly when every field is resolved, and otherwise
   * returned with the registry unchanged.
   */
  lemma ExtractFlat(reg: Contexts, pv: int, data: seq<Byte>, pos: int, fid: int, cid: int, ver: int, fuel: nat)
    requires ReadFieldCount(data, pos).Ok?
    requires FlatFields(data, pos + 2 * INT_SIZE_IN_BYTES, 0, ReadFieldCount(data, pos).value, true)
    ensures var base := pos + 2 * INT_SIZE_IN_BYTES;
            var count := ReadFieldCount(data, pos).value;
            && DecodeAll(Entries(data, base), 0, count).Ok?
            && var cd := ClassDefinition(fid, cid, ver, DecodeAll(Entries(data, base), 0, count).value);
               Extract(reg, pv, data, pos, fid, cid, ver, fuel) ==
               if AllResolved(data, base, 0, count) then RegisterIn(reg, pv, cd) else Run(Ok(cd), reg)
  {
    var base := pos + 2 * INT_SIZE_IN_BYTES;
    var count := ReadFieldCount(data, pos).value;
    FieldsFromFlat(reg, data, base, 0, count, [], true, Nested(pv, data, fuel));
    assert [] + DecodeAll(Entries(data, base), 0, count).value == DecodeAll(Entries(data, base), 0, count).value;
  }

  /**
   * A flat payload with at least one field is never registered: its first field is reached
   * with the flag set, so were it resolved it would be followed.
   */
  lemma FlatFirstUnresolved(data: seq<Byte>, base: int, count: int)
    requires count >= 1 && FlatFields(data, base, 0, count, true)
    ensures !FieldResolved(data, base, 0)
    ensures !AllResolved(data, base, 0, count)
  {
    assert FlatField(data, base, 0, 0, true);
    assert AllResolved(data, base, 0, 0);
    ParseFieldUnflagged(data, base, 0, true);
  }

  /**
   * There is no rollback: an extraction whose field loop fails returns that failure with
   * the registry the loop left, nested registrations made before the failure included,
   * and that registry has only grown from the one it started with.
   */
  lemma ExtractFailureKeeps(reg: Contexts, pv: int, data: seq<Byte>, pos: int, fid: int, cid: int, ver: int, fuel: nat)
    requires ReadFieldCount(data, pos).Ok?
    requires FieldsFrom(reg, data, pos + 2 * INT_SIZE_IN_BYTES, 0, ReadFieldCount(data, pos).value, [], true, Nested(pv, data, fuel)).result.Err?
    ensures var fields := FieldsFrom(reg, data, pos + 2 * INT_SIZE_IN_BYTES, 0, ReadFieldCount(data, pos).value, [], true, Nested(pv, data, fuel));
            && Extract(reg, pv, data, pos, fid, cid, ver, fuel) == Run(Err(fields.result.error), fields.reg)
            && Grows(reg, fields.reg, pv)
  {
    NestedGrows(pv, data, fuel);
    FieldsFromGrows(reg, pv, data, pos + 2 * INT_SIZE_IN_BYTES, 0, ReadFieldCount(data, pos).value, [], true, Nested(pv, data, fuel));
  }
}
