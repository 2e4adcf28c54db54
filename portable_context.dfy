/**
 * The Portable context: one ClassDefinitionContext per factory id, created on first use
 * with the context's Portable version, and the operations that delegate to them.  Each
 * method is proved to leave the registry as the corresponding value function says, and
 * to keep every context filed under its own factory id.
 */
module Portable {
  import opened Common
  import opened Wire
  import opened ClassDef
  import opened Registry
  import opened PortableState
  import opened Extractor
  import opened FieldPath

  class PortableContext {
    const portableVersion: int
    var classDefs: map<int, ClassDefinitionContext>

    /** The registry these contexts hold, as a value. */
    ghost var state: Contexts
    /** This object and every context it holds. */
    ghost var Repr: set<object>

    /**
     * Every context sits under its own factory id, carries the Portable version, and is
     * what `state` records for that factory.
     */
    ghost predicate Valid()
      reads this, Repr
    {
      && this in Repr
      && state.Keys == classDefs.Keys
      && (forall f :: f in classDefs ==> classDefs[f] in Repr)
      && (forall f :: f in classDefs ==> classDefs[f].factoryId == f && classDefs[f].version == portableVersion)
      && (forall f :: f in classDefs ==> classDefs[f].State() == state[f])
    }

    /** The registry these contexts hold is filed under the Portable version. */
    lemma ValidFiled()
      requires Valid()
      ensures Filed(state, portableVersion)
    {
    }

    /** Since the method's start the footprint only grew, by new objects. */
    twostate predicate ReprGrows()
      reads this
    {
      old(Repr) <= Repr && fresh(Repr - old(Repr))
    }

    /**
     * After a step that changed only context `c` (and recorded its new state), the
     * contexts are valid again.
     */
    twostate lemma OnlyContextChanged(c: ClassDefinitionContext)
      requires old(Valid()) && c.factoryId in old(classDefs) && old(classDefs)[c.factoryId] == c
      requires classDefs == old(classDefs) && Repr == old(Repr)
      requires forall o :: o in old(Repr) && o != c && o != this ==> unchanged(o)
      requires state == old(state)[c.factoryId := c.State()]
      ensures Valid()
    {
      forall g | g in classDefs && g != c.factoryId ensures classDefs[g].State() == state[g] {
        assert old(classDefs[g]) in old(Repr);
        assert old(classDefs[g].State()) == old(state[g]);
      }
    }

    constructor (portableVersion: int)
      ensures this.portableVersion == portableVersion
      ensures Valid() && state == map[]
    {
      this.portableVersion := portableVersion;
      classDefs := map[];
      state := map[];
      Repr := {this};
    }

    /** `get_portable_version`. */
    function GetPortableVersion(): (v: int)
      reads this, Repr
      ensures Valid() ==> Filed(state, v)
    {
      portableVersion
    }

    /** `_get_class_def_context`, inserting a fresh empty context for a factory seen for the first time. */
    method GetClassDefContext(f: int) returns (c: ClassDefinitionContext)
      requires Valid()
      modifies Repr
      ensures Valid() && ReprGrows()
      ensures f in classDefs && c == classDefs[f]
      ensures f in old(classDefs) ==> classDefs == old(classDefs) && c == old(classDefs)[f]
      ensures f !in old(classDefs) ==> fresh(c) && classDefs == old(classDefs)[f := c]
      ensures state == WithContext(old(state), portableVersion, f)
    {
      if f in classDefs {
        c := classDefs[f];
      } else {
        c := new ClassDefinitionContext(f, portableVersion);
        classDefs := classDefs[f := c];
        state := state[f := c.State()];
        Repr := Repr + {c};
      }
    }

    /** `get_class_version`. */
    method GetClassVersion(f: int, classId: int) returns (v: int)
      requires Valid()
      modifies Repr
      ensures Valid() && ReprGrows()
      ensures v == ClassVersionIn(old(state), portableVersion, f, classId)
      ensures state == WithContext(old(state), portableVersion, f)
    {
      var c := GetClassDefContext(f);
      v := c.GetClassVersion(classId);
    }

    /** `set_class_version`. */
    method SetClassVersion(f: int, classId: int, v: int) returns (r: Outcome)
      requires Valid()
      modifies Repr
      ensures Valid() && ReprGrows()
      ensures (r, state) == SetVersionIn(old(state), portableVersion, f, classId, v)
    {
      var c := GetClassDefContext(f);
      ghost var reg1 := state;
      assert reg1[f] == c.State();
      label before:
      r := c.SetClassVersion(classId, v);
      state := state[f := c.State()];
      OnlyContextChanged@before(c);
    }

    /** `lookup_class_definition`. */
    method LookupClassDefinition(f: int, classId: int, v: int) returns (r: Option<ClassDefinition>)
      requires Valid()
      modifies Repr
      ensures Valid() && ReprGrows()
      ensures r == LookupIn(old(state), portableVersion, f, classId, v)
      ensures state == WithContext(old(state), portableVersion, f)
    {
      var c := GetClassDefContext(f);
      r := c.Lookup(classId, v);
    }

    /** `register_class_definition`: registers in the context of the definition's own factory. */
    method RegisterClassDefinition(cd: ClassDefinition) returns (r: Result<ClassDefinition>)
      requires Valid()
      modifies Repr
      ensures Valid() && ReprGrows()
      ensures Run(r, state) == RegisterIn(old(state), portableVersion, cd)
    {
      var c := GetClassDefContext(cd.factoryId);
      ghost var reg1 := state;
      assert reg1[cd.factoryId] == c.State();
      label before:
      r := c.Register(cd);
      state := state[cd.factoryId := c.State()];
      OnlyContextChanged@before(c);
      assert reg1 == WithContext(old(state), portableVersion, cd.factoryId);
    }

    /**
     * The lookup half of `lookup_or_register_class_definition`: the definition registered
     * for the portable's factory, class and version (its declared class version, else the
     * Portable version).  None is where the source writes the portable to build one.
     */
    method LookupOrRegisterClassDefinition(f: int, classId: int, declaredVersion: Option<int>) returns (r: Option<ClassDefinition>)
      requires Valid()
      modifies Repr
      ensures Valid() && ReprGrows()
      ensures r == LookupIn(old(state), portableVersion, f, classId, declaredVersion.GetOr(portableVersion))
      ensures state == WithContext(old(state), portableVersion, f)
    {
      var v := declaredVersion.GetOr(portableVersion);
      r := LookupClassDefinition(f, classId, v);
    }

    /**
     * `read_class_definition(data_in, factory_id, class_id, version)` with the cursor at
     * `pos`: the field loop, then registration when every field left the flag set.
     */
    method ReadClassDefinition(data: seq<Byte>, pos: int, fid: int, cid: int, ver: int, fuel: nat)
      returns (r: Result<ClassDefinition>)
      requires Valid()
      modifies Repr
      ensures Valid() && ReprGrows()
      ensures Run(r, state) == Extract(old(state), portableVersion, data, pos, fid, cid, ver, fuel)
      decreases fuel, 3
    {
      var header := ReadFieldCount(data, pos);
      if header.Err? {
        return Err(header.error);
      }
      var count := header.value;
      var fields := ReadFields(data, pos + 2 * INT_SIZE_IN_BYTES, count, fuel);
      if fields.Err? {
        return Err(fields.error);
      }
      var cd := ClassDefinition(fid, cid, ver, fields.value.0);
      if fields.value.1 {
        r := RegisterClassDefinition(cd);
      } else {
        r := Ok(cd);
      }
    }

    /** The field loop over the `count` entries of the offset table at `base`, with the final registering flag. */
    method ReadFields(data: seq<Byte>, base: int, count: int, fuel: nat) returns (r: Result<(seq<FieldDefinition>, bool)>)
      requires Valid()
      modifies Repr
      ensures Valid() && ReprGrows()
      ensures Run(r, state) == FieldsFrom(old(state), data, base, 0, count, [], true, Nested(portableVersion, data, fuel))
      decreases fuel, 2
    {
      ghost var nested := Nested(portableVersion, data, fuel);
      var fields: seq<FieldDefinition> := [];
      var register := true;
      var i := 0;
      while i < count
        invariant Valid() && ReprGrows()
        invariant FieldsFrom(state, data, base, i, count, fields, register, nested) ==
                  FieldsFrom(old(state), data, base, 0, count, [], true, nested)
        decreases count - i
      {
        ghost var before := state;
        var field := ReadField(data, base, i, register, fuel);
        if field.Err? {
          assert FieldsFrom(before, data, base, i, count, fields, register, nested) == Run(Err(field.error), state);
          return Err(field.error);
        }
        assert FieldsFrom(before, data, base, i, count, fields, register, nested) ==
               FieldsFrom(state, data, base, i + 1, count, fields + [field.value.0], field.value.1, nested);
        fields := fields + [field.value.0];
        register := field.value.1;
        i := i + 1;
      }
      r := Ok((fields, register));
    }

    /** One iteration of the field loop: parse field `i`, reading its nested payload when it has one. */
    method ReadField(data: seq<Byte>, base: int, i: int, register: bool, fuel: nat)
      returns (r: Result<(FieldDefinition, bool)>)
      requires Valid()
      modifies Repr
      ensures Valid() && ReprGrows()
      ensures Run(r, state) == ReadFieldAt(old(state), data, base, i, register, Nested(portableVersion, data, fuel))
      decreases fuel, 1
    {
      var parsed := ParseField(data, base, i, register);
      if parsed.Err? {
        return Err(parsed.error);
      }
      r := ReadNested(data, parsed.value, fuel);
    }

    /** The nested read field `h` calls for: the payload it points at, one level of fuel down. */
    method ReadNested(data: seq<Byte>, h: FieldHeader, fuel: nat) returns (r: Result<(FieldDefinition, bool)>)
      requires Valid()
      modifies Repr
      ensures Valid() && ReprGrows()
      ensures Run(r, state) == FollowNested(old(state), h, Nested(portableVersion, data, fuel))
      decreases fuel, 0
    {
      if h.nested.Some? {
        var n := h.nested.value;
        if fuel == 0 {
          return Err(TooDeep);
        }
        var inner := ReadClassDefinition(data, n.pos, n.factoryId, n.classId, n.version, fuel - 1);
        if inner.Err? {
          return Err(inner.error);
        }
      }
      r := Ok((h.fd, h.register));
    }

    /** `get_field_definition(class_def, name)`. */
    method GetFieldDefinition(cd: ClassDefinition, name: Name) returns (r: Result<Option<FieldDefinition>>)
      requires Valid()
      modifies Repr
      ensures Valid() && ReprGrows()
      ensures Run(r, state) == ResolveField(old(state), portableVersion, cd, name)
    {
      var fd := GetField(cd, name);
      if fd.Some? {
        return Ok(fd);
      }
      var segs := Split(name, DOT);
      if |segs| <= 1 {
        return Ok(None);
      }
      var current := cd;
      var i := 0;
      while i < |segs| - 1
        invariant 0 <= i < |segs|
        invariant Valid() && ReprGrows()
        invariant Walk(state, portableVersion, current, segs[i..]) == Walk(old(state), portableVersion, cd, segs)
        decreases |segs| - i
      {
        assert segs[i..][1..] == segs[i + 1..];
        var field := GetField(current, segs[i]);
        if field.None? {
          return Err(UnknownField);
        }
        var next := LookupClassDefinition(field.value.factoryId, field.value.classId, current.version);
        if next.None? {
          return Err(UnresolvedNestedSchema);
        }
        current := next.value;
        i := i + 1;
      }
      r := Ok(GetField(current, segs[i]));
    }
  }
}
