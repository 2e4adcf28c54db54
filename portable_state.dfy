/**
 * The Portable context's registry as a value: one ContextState per factory id.  Every
 * operation of the context first gets-or-creates the factory's context (an absent
 * factory gets an empty context carrying the Portable version) and then delegates.
 */
module PortableState {
  import opened Common
  import opened ClassDef
  import opened Registry

  type Contexts = map<int, ContextState>

  /** The run of an operation that may update the registry: its result and the registry after it. */
  datatype Run<+T> = Run(result: Result<T>, reg: Contexts)

  /** Every context is filed under its own factory id and carries the Portable version. */
  predicate Filed(reg: Contexts, portableVersion: int) {
    forall f :: f in reg ==> reg[f].factoryId == f && reg[f].version == portableVersion
  }

  /** A filed registry whose every context is consistent. */
  predicate RegistryValid(reg: Contexts, portableVersion: int) {
    Filed(reg, portableVersion) && forall f :: f in reg ==> Consistent(reg[f])
  }

  /** What a lookup of factory `f` sees: its context, or an empty one when none exists yet. */
  function ContextOf(reg: Contexts, portableVersion: int, f: int): ContextState {
    if f in reg then reg[f] else EmptyContext(f, portableVersion)
  }

  /**
   * `_get_class_def_context` with insert-if-absent: the registry after getting the context
   * of factory `f`.  An existing context is kept as it is; nothing else changes.
   */
  function WithContext(reg: Contexts, portableVersion: int, f: int): (r: Contexts)
    ensures f in r && r.Keys == reg.Keys + {f}
    ensures f in reg ==> r == reg
    ensures forall g :: ContextOf(r, portableVersion, g) == ContextOf(reg, portableVersion, g)
    ensures Filed(reg, portableVersion) ==> Filed(r, portableVersion)
    ensures RegistryValid(reg, portableVersion) ==> RegistryValid(r, portableVersion)
  {
    reg[f := ContextOf(reg, portableVersion, f)]
  }

  /**
   * `_get_class_def_context` as written: a miss calls the context constructor with one
   * argument where it declares two, which raises, and nothing is ever inserted.
   */
  function GetContextAsWritten(reg: Contexts, f: int): (r: Result<ContextState>)
    ensures r.Ok? <==> f in reg
    ensures r.Ok? ==> r.value == reg[f]
    ensures r.Err? ==> r.error == WrongArgumentCount
  {
    if f in reg then Ok(reg[f]) else Err(WrongArgumentCount)
  }

  /**
   * As written, a lookup on the empty factory dictionary fails.  Nothing in context.py
   * ever inserts into that dictionary, so it stays as the constructor leaves it, empty,
   * and this is every lookup; that part is read off the code, not proved here.
   */
  lemma AsWrittenEveryLookupFails(f: int)
    ensures GetContextAsWritten(map[], f) == Err(WrongArgumentCount)
  {
  }

  /** `lookup_class_definition`. */
  function LookupIn(reg: Contexts, portableVersion: int, f: int, classId: int, v: int): (r: Option<ClassDefinition>)
    ensures f !in reg ==> r == None
    ensures r.Some? <==> f in reg && (classId, v) in reg[f].defs
    ensures r.Some? ==> r.value == reg[f].defs[(classId, v)]
  {
    LookupDef(ContextOf(reg, portableVersion, f), classId, v)
  }

  /** `get_class_version(factory_id, class_id)`: the current version of the class in its factory's context, or -1. */
  function ClassVersionIn(reg: Contexts, portableVersion: int, f: int, classId: int): (r: int)
    ensures f in reg && classId in reg[f].classVersions ==> r == reg[f].classVersions[classId]
    ensures f !in reg || classId !in reg[f].classVersions ==> r == UNSET_VERSION
  {
    ClassVersionOf(ContextOf(reg, portableVersion, f), classId)
  }

  /**
   * `set_class_version(factory_id, class_id, version)`: records the version in the
   * factory's context (created if absent); a first set or a repeat with the same version
   * passes, another version fails and leaves that context as it was.  No other class's
   * version and no stored definition changes.
   */
  function SetVersionIn(reg: Contexts, portableVersion: int, f: int, classId: int, v: int): (r: (Outcome, Contexts))
    ensures r.0 == Pass <==> classId !in ContextOf(reg, portableVersion, f).classVersions ||
                             ContextOf(reg, portableVersion, f).classVersions[classId] == v
    ensures r.0 == Pass ==> ClassVersionIn(r.1, portableVersion, f, classId) == v
    ensures r.0.Fail? ==> r.0.error == VersionConflict && r.1 == WithContext(reg, portableVersion, f)
    ensures forall g, c :: (g, c) != (f, classId) ==> ClassVersionIn(r.1, portableVersion, g, c) == ClassVersionIn(reg, portableVersion, g, c)
    ensures forall g, c, w :: LookupIn(r.1, portableVersion, g, c, w) == LookupIn(reg, portableVersion, g, c, w)
    ensures Filed(reg, portableVersion) ==> Filed(r.1, portableVersion)
    ensures RegistryValid(reg, portableVersion) ==> RegistryValid(r.1, portableVersion)
  {
    var reg1 := WithContext(reg, portableVersion, f);
    match SetVersion(reg1[f], classId, v)
    case Err(e) => (Fail(e), reg1)
    case Ok(s) => (Pass, reg1[f := s])
  }

  /** `register_class_definition`: registers in the context of the definition's own factory. */
  function RegisterIn(reg: Contexts, portableVersion: int, cd: ClassDefinition): (run: Run<ClassDefinition>)
    ensures Filed(reg, portableVersion) ==> Filed(run.reg, portableVersion)
    ensures Filed(reg, portableVersion) && run.result.Ok? ==> run.result.value == StampVersion(cd, portableVersion)
    ensures run.result.Ok? ==> LookupIn(run.reg, portableVersion, cd.factoryId, cd.classId, run.result.value.version) == Some(run.result.value)
    ensures Filed(reg, portableVersion) && run.result.Err? ==>
              run.result.error == IncompatibleDefinitions && run.reg == WithContext(reg, portableVersion, cd.factoryId)
    ensures Filed(reg, portableVersion) && LookupIn(reg, portableVersion, cd.factoryId, cd.classId, StampVersion(cd, portableVersion).version) == None ==>
              run.result.Ok?
    ensures run.result.Ok? ==>
              forall g, c, w :: (g, c, w) != (cd.factoryId, cd.classId, run.result.value.version) ==>
                LookupIn(run.reg, portableVersion, g, c, w) == LookupIn(reg, portableVersion, g, c, w)
    ensures forall g, c :: ClassVersionIn(run.reg, portableVersion, g, c) == ClassVersionIn(reg, portableVersion, g, c)
    ensures RegistryValid(reg, portableVersion) ==> RegistryValid(run.reg, portableVersion)
    ensures Extends(reg, run.reg)
  {
    var reg1 := WithContext(reg, portableVersion, cd.factoryId);
    match RegisterDef(reg1[cd.factoryId], cd)
    case Err(e) => Run(Err(e), reg1)
    case Ok((s, d)) => Run(Ok(d), reg1[cd.factoryId := s])
  }

  /**
   * `b` keeps everything `a` knows: every context of `a` is still there with the same
   * factory id, version and class versions, and every stored definition is still stored.
   */
  predicate Extends(a: Contexts, b: Contexts) {
    forall f :: f in a ==>
      f in b && b[f].(defs := a[f].defs) == a[f] &&
      forall k :: k in a[f].defs ==> k in b[f].defs && b[f].defs[k] == a[f].defs[k]
  }

  lemma ExtendsTransitive(a: Contexts, b: Contexts, c: Contexts)
    requires Extends(a, b) && Extends(b, c)
    ensures Extends(a, c)
  {
  }
}
