/**
 * Resolving a field by a dotted path (`get_field_definition`): a name the definition
 * holds as a whole wins; otherwise the name is split at every '.', each non-final segment
 * must name a field of the current definition, and that field's nested schema is looked
 * up in the registry (under the current definition's version) to continue the walk.
 */
module FieldPath {
  import opened Common
  import opened Wire
  import opened ClassDef
  import opened PortableState

  /** The path separator, '.'. */
  const DOT: Byte := 46

  /** The position of the first `sep` in `s`. */
  function FirstIndex(s: seq<Byte>, sep: Byte): (k: nat)
    requires sep in s
    ensures k < |s| && s[k] == sep && sep !in s[..k]
  {
    if s[0] == sep then 0
    else
      assert sep in s[1..];
      var k := FirstIndex(s[1..], sep);
      assert s[..k + 1] == [s[0]] + s[1..][..k];
      k + 1
  }

  /** A separator with none before it is the first one. */
  lemma {:induction false} FirstIndexAt(s: seq<Byte>, sep: Byte, k: nat)
    requires k < |s| && s[k] == sep && sep !in s[..k]
    ensures FirstIndex(s, sep) == k
    decreases k
  {
    if k > 0 {
      assert s[0] == s[..k][0];
      assert s[1..][..k - 1] == s[1..k];
      assert forall j :: 1 <= j < k ==> s[j] == s[..k][j];
      FirstIndexAt(s[1..], sep, k - 1);
    }
  }

  /** `bytes.split(sep)`: the runs between separators, an empty run wherever two separators (or an end) meet. */
  function Split(s: seq<Byte>, sep: Byte): (parts: seq<Name>)
    ensures |parts| >= 1
    ensures forall k :: 0 <= k < |parts| ==> sep !in parts[k]
    ensures Join(parts, sep) == s
    ensures |parts| > 1 <==> sep in s
    decreases |s|
  {
    if sep !in s then [s]
    else
      var k := FirstIndex(s, sep);
      var rest := Split(s[k + 1..], sep);
      assert s == s[..k] + [sep] + s[k + 1..];
      [s[..k]] + rest
  }

  /** `sep.join(parts)`. */
  function Join(parts: seq<Name>, sep: Byte): seq<Byte>
    requires |parts| >= 1
    decreases |parts|
  {
    if |parts| == 1 then parts[0] else parts[0] + [sep] + Join(parts[1..], sep)
  }

  /** Splitting a join of separator-free parts gives the parts back. */
  lemma {:induction false} SplitJoin(parts: seq<Name>, sep: Byte)
    requires |parts| >= 1
    requires forall k :: 0 <= k < |parts| ==> sep !in parts[k]
    ensures Split(Join(parts, sep), sep) == parts
    decreases |parts|
  {
    if |parts| > 1 {
      var s := Join(parts, sep);
      var head := parts[0];
      var tail := parts[1..];
      assert s == head + [sep] + Join(tail, sep);
      assert s[|head|] == sep;
      assert s[..|head|] == head;
      FirstIndexAt(s, sep, |head|);
      var k := |head|;
      assert s[k + 1..] == Join(tail, sep);
      SplitJoin(tail, sep);
      assert parts == [head] + tail;
    }
  }

  /**
   * The walk over the segments of a path (at least one) from definition `current`: the
   * last segment is looked up in the current definition (found or not); any other
   * segment must be a field there, and its nested schema must be registered.  Each
   * registry lookup first gets-or-creates the factory's context.
   */
  function Walk(reg: Contexts, pv: int, current: ClassDefinition, segs: seq<Name>): (run: Run<Option<FieldDefinition>>)
    requires |segs| >= 1
    ensures run.result.Ok? && run.result.value.Some? ==> run.result.value.value.name == segs[|segs| - 1]
    ensures run.result.Err? ==> run.result.error == UnknownField || run.result.error == UnresolvedNestedSchema
    ensures run.reg.Keys >= reg.Keys
    ensures forall g :: ContextOf(run.reg, pv, g) == ContextOf(reg, pv, g)
    ensures Filed(reg, pv) ==> Filed(run.reg, pv)
    decreases |segs|
  {
    var fd := GetField(current, segs[0]);
    if |segs| == 1 then Run(Ok(fd), reg)
    else if fd.None? then Run(Err(UnknownField), reg)
    else
      var reg1 := WithContext(reg, pv, fd.value.factoryId);
      match LookupIn(reg1, pv, fd.value.factoryId, fd.value.classId, current.version)
      case None => Run(Err(UnresolvedNestedSchema), reg1)
      case Some(next) => Walk(reg1, pv, next, segs[1..])
  }

  /**
   * `get_field_definition(class_def, name)`: a field named `name` itself is returned at
   * once, and a name without a dot that is not a field yields None, both without touching
   * the registry.  Otherwise the result is a field named by the path's last segment, or
   * an error for a missing or unregistered intermediate segment; no lookup sees a different
   * context afterwards.
   */
  function ResolveField(reg: Contexts, pv: int, cd: ClassDefinition, name: Name): (run: Run<Option<FieldDefinition>>)
    ensures GetField(cd, name).Some? ==> run == Run(Ok(GetField(cd, name)), reg)
    ensures GetField(cd, name).None? && DOT !in name ==> run == Run(Ok(None), reg)
    ensures run.result.Ok? && run.result.value.Some? ==>
              run.result.value.value.name == name ||
              (DOT in name && run.result.value.value.name == Split(name, DOT)[|Split(name, DOT)| - 1])
    ensures run.result.Err? ==>
              DOT in name && GetField(cd, name).None? &&
              (run.result.error == UnknownField || run.result.error == UnresolvedNestedSchema)
    ensures forall g :: ContextOf(run.reg, pv, g) == ContextOf(reg, pv, g)
    ensures Filed(reg, pv) ==> Filed(run.reg, pv)
  {
    var fd := GetField(cd, name);
    if fd.Some? then Run(Ok(fd), reg)
    else
      var segs := Split(name, DOT);
      if |segs| <= 1 then Run(Ok(None), reg)
      else Walk(reg, pv, cd, segs)
  }

  /**
   * The first |fs| steps of a walk over `segs` that succeed: in definition `ds[j]` segment
   * `j` names field `fs[j]`, and the schema nested under that field, looked up at the version
   * of `ds[j]`, is `ds[j + 1]`.
   */
  predicate Chain(reg: Contexts, pv: int, ds: seq<ClassDefinition>, fs: seq<FieldDefinition>, segs: seq<Name>) {
    && |ds| == |fs| + 1
    && |fs| < |segs|
    && forall j :: 0 <= j < |fs| ==>
         && GetField(ds[j], segs[j]) == Some(fs[j])
         && LookupIn(reg, pv, fs[j].factoryId, fs[j].classId, ds[j].version) == Some(ds[j + 1])
  }

  /**
   * A walk that has followed the chain up to definition `ds[k]` (k == |fs|) ends at step `k`:
   * on the last segment with that segment's field of `ds[k]` (or None); on an earlier one
   * with UnknownField when `ds[k]` has no such field, and with UnresolvedNestedSchema when
   * the field's nested schema is not registered.
   */
  lemma {:induction false} WalkChain(reg: Contexts, pv: int, ds: seq<ClassDefinition>, fs: seq<FieldDefinition>, segs: seq<Name>)
    requires Chain(reg, pv, ds, fs, segs)
    ensures var k := |fs|;
            k == |segs| - 1 ==> Walk(reg, pv, ds[0], segs).result == Ok(GetField(ds[k], segs[k]))
    ensures var k := |fs|;
            k < |segs| - 1 && GetField(ds[k], segs[k]).None? ==> Walk(reg, pv, ds[0], segs).result == Err(UnknownField)
    ensures var k := |fs|;
            var f := GetField(ds[k], segs[k]);
            k < |segs| - 1 && f.Some? && LookupIn(reg, pv, f.value.factoryId, f.value.classId, ds[k].version).None? ==>
              Walk(reg, pv, ds[0], segs).result == Err(UnresolvedNestedSchema)
    decreases |fs|
  {
    if |fs| == 0 {
      WalkFirstStep(reg, pv, ds[0], segs);
    } else {
      var reg1 := WithContext(reg, pv, fs[0].factoryId);
      WalkFirstStep(reg, pv, ds[0], segs);
      ChainTail(reg, pv, ds, fs, segs);
      WalkChain(reg1, pv, ds[1..], fs[1..], segs[1..]);
    }
  }

  /**
   * The first step of a walk: the last segment gives its field; an earlier one that is not
   * a field is UnknownField; one whose nested schema is not registered is
   * UnresolvedNestedSchema; otherwise the walk continues from that schema with the rest.
   */
  lemma WalkFirstStep(reg: Contexts, pv: int, current: ClassDefinition, segs: seq<Name>)
    requires |segs| >= 1
    ensures |segs| == 1 ==> Walk(reg, pv, current, segs).result == Ok(GetField(current, segs[0]))
    ensures |segs| > 1 && GetField(current, segs[0]).None? ==> Walk(reg, pv, current, segs).result == Err(UnknownField)
    ensures var f := GetField(current, segs[0]);
            |segs| > 1 && f.Some? && LookupIn(reg, pv, f.value.factoryId, f.value.classId, current.version).None? ==>
              Walk(reg, pv, current, segs).result == Err(UnresolvedNestedSchema)
    ensures var f := GetField(current, segs[0]);
            |segs| > 1 && f.Some? && LookupIn(reg, pv, f.value.factoryId, f.value.classId, current.version).Some? ==>
              Walk(reg, pv, current, segs) ==
              Walk(WithContext(reg, pv, f.value.factoryId), pv, LookupIn(reg, pv, f.value.factoryId, f.value.classId, current.version).value, segs[1..])
  {
    var f := GetField(current, segs[0]);
    if |segs| > 1 && f.Some? {
      var reg1 := WithContext(reg, pv, f.value.factoryId);
      assert ContextOf(reg1, pv, f.value.factoryId) == ContextOf(reg, pv, f.value.factoryId);
    }
  }

  /** Getting a context changes what no lookup finds, so a chain carries over to the registry after the first step. */
  lemma ChainTail(reg: Contexts, pv: int, ds: seq<ClassDefinition>, fs: seq<FieldDefinition>, segs: seq<Name>)
    requires Chain(reg, pv, ds, fs, segs) && |fs| > 0
    ensures Chain(WithContext(reg, pv, fs[0].factoryId), pv, ds[1..], fs[1..], segs[1..])
  {
    var reg1 := WithContext(reg, pv, fs[0].factoryId);
    forall j | 0 <= j < |fs| - 1
      ensures GetField(ds[1..][j], segs[1..][j]) == Some(fs[1..][j])
      ensures LookupIn(reg1, pv, fs[1..][j].factoryId, fs[1..][j].classId, ds[1..][j].version) == Some(ds[1..][j + 1])
    {
      assert GetField(ds[j + 1], segs[j + 1]) == Some(fs[j + 1]);
      assert ContextOf(reg1, pv, fs[j + 1].factoryId) == ContextOf(reg, pv, fs[j + 1].factoryId);
    }
  }

  /**
   * A dotted name that is not itself a field is resolved by walking its segments, however
   * many: along the chain of nested schemas from `cd`, the result is the last segment's
   * field of the last schema; the first broken step raises UnknownField (no such field) or
   * UnresolvedNestedSchema (its nested schema is not registered).
   */
  lemma ResolvePath(reg: Contexts, pv: int, cd: ClassDefinition, name: Name, ds: seq<ClassDefinition>, fs: seq<FieldDefinition>)
    requires GetField(cd, name) == None
    requires DOT in name
    requires Chain(reg, pv, ds, fs, Split(name, DOT)) && ds[0] == cd
    ensures var segs, k := Split(name, DOT), |fs|;
            k == |segs| - 1 ==> ResolveField(reg, pv, cd, name).result == Ok(GetField(ds[k], segs[k]))
    ensures var segs, k := Split(name, DOT), |fs|;
            k < |segs| - 1 && GetField(ds[k], segs[k]).None? ==> ResolveField(reg, pv, cd, name).result == Err(UnknownField)
    ensures var segs, k := Split(name, DOT), |fs|;
            var f := GetField(ds[k], segs[k]);
            k < |segs| - 1 && f.Some? && LookupIn(reg, pv, f.value.factoryId, f.value.classId, ds[k].version).None? ==>
              ResolveField(reg, pv, cd, name).result == Err(UnresolvedNestedSchema)
  {
    WalkChain(reg, pv, ds, fs, Split(name, DOT));
  }

  /** A two-segment path `a.b` that is not itself a field resolves to field `b` of the schema nested under field `a`. */
  lemma ResolveNested(reg: Contexts, pv: int, cd: ClassDefinition, a: Name, b: Name, fd: FieldDefinition, nested: ClassDefinition)
    requires DOT !in a && DOT !in b
    requires GetField(cd, a + [DOT] + b) == None
    requires GetField(cd, a) == Some(fd)
    requires LookupIn(reg, pv, fd.factoryId, fd.classId, cd.version) == Some(nested)
    ensures ResolveField(reg, pv, cd, a + [DOT] + b).result == Ok(GetField(nested, b))
  {
    assert Join([a, b], DOT) == a + [DOT] + b;
    SplitJoin([a, b], DOT);
    var reg1 := WithContext(reg, pv, fd.factoryId);
    assert ContextOf(reg1, pv, fd.factoryId) == ContextOf(reg, pv, fd.factoryId);
    assert [a, b][1..] == [b];
    assert Walk(reg, pv, cd, [a, b]) == Walk(reg1, pv, nested, [b]);
  }

  /** A path whose first segment is not a field fails with UnknownField. */
  lemma ResolveUnknownSegment(reg: Contexts, pv: int, cd: ClassDefinition, name: Name)
    requires GetField(cd, name) == None
    requires DOT in name
    requires GetField(cd, Split(name, DOT)[0]) == None
    ensures ResolveField(reg, pv, cd, name) == Run(Err(UnknownField), reg)
  {
  }

  /** A path whose first segment's nested schema is not registered fails with UnresolvedNestedSchema. */
  lemma ResolveUnregistered(reg: Contexts, pv: int, cd: ClassDefinition, name: Name, fd: FieldDefinition)
    requires GetField(cd, name) == None
    requires DOT in name
    requires GetField(cd, Split(name, DOT)[0]) == Some(fd)
    requires LookupIn(reg, pv, fd.factoryId, fd.classId, cd.version) == None
    ensures ResolveField(reg, pv, cd, name).result == Err(UnresolvedNestedSchema)
  {
    var reg1 := WithContext(reg, pv, fd.factoryId);
    assert ContextOf(reg1, pv, fd.factoryId) == ContextOf(reg, pv, fd.factoryId);
  }
}
