/**
 * The per-factory schema registry.  A context keeps, for one factory id, the current
 * version of each class id (set at most once) and the definitions it has accepted,
 * keyed by (class id, version).  The value functions below give the meaning of each
 * operation; the class ClassDefinitionContext holds the two dictionaries as mutable
 * fields and its methods are proved to behave as those functions say.
 */
module Registry {
  import opened Common
  import opened ClassDef

  /** The observable state of one context. */
  datatype ContextState = ContextState(
    factoryId: int,
    version: int,
    classVersions: map<int, int>,
    defs: map<(int, int), ClassDefinition>)

  function EmptyContext(factoryId: int, version: int): ContextState {
    ContextState(factoryId, version, map[], map[])
  }

  /** Every stored definition belongs to this factory and is stored under its own (class id, version). */
  predicate Consistent(s: ContextState) {
    forall k :: k in s.defs ==> s.defs[k].factoryId == s.factoryId && (s.defs[k].classId, s.defs[k].version) == k
  }

  /** `get_class_version`: the current version of a class id, or -1 when none was set. */
  function ClassVersionOf(s: ContextState, classId: int): int {
    if classId in s.classVersions then s.classVersions[classId] else UNSET_VERSION
  }

  /**
   * `set_class_version`: the first call for a class id records the version; a repeat with
   * the same version changes nothing; a repeat with another version is a conflict.
   */
  function SetVersion(s: ContextState, classId: int, v: int): (r: Result<ContextState>)
    ensures r.Ok? <==> classId !in s.classVersions || s.classVersions[classId] == v
    ensures r.Err? ==> r.error == VersionConflict
    ensures r.Ok? ==> classId in r.value.classVersions && ClassVersionOf(r.value, classId) == v
    ensures r.Ok? ==> forall c :: c != classId ==> ClassVersionOf(r.value, c) == ClassVersionOf(s, c)
    ensures r.Ok? ==> r.value.(classVersions := s.classVersions) == s
    ensures r.Ok? && classId in s.classVersions ==> r.value == s
  {
    if classId in s.classVersions then
      if s.classVersions[classId] != v then Err(VersionConflict) else Ok(s)
    else
      Ok(s.(classVersions := s.classVersions[classId := v]))
  }

  /** `lookup`: the definition stored under (class id, version), if any. */
  function LookupDef(s: ContextState, classId: int, v: int): Option<ClassDefinition> {
    if (classId, v) in s.defs then Some(s.defs[(classId, v)]) else None
  }

  /**
   * `register`: reject a definition of another factory; stamp an unset version with the
   * context's version; store the definition under a free key and return it; for a taken
   * key return the stored definition when it is equal and fail when it differs.  The
   * result carries the new state and the definition handed back to the caller.
   */
  function RegisterDef(s: ContextState, cd: ClassDefinition): (r: Result<(ContextState, ClassDefinition)>)
    ensures cd.factoryId != s.factoryId ==> r == Err(InvalidFactory)
    ensures r.Ok? ==> r.value.1 == StampVersion(cd, s.version)
    ensures r.Ok? ==> LookupDef(r.value.0, cd.classId, r.value.1.version) == Some(r.value.1)
    ensures r.Ok? ==> forall c, v :: (c, v) != (cd.classId, r.value.1.version) ==> LookupDef(r.value.0, c, v) == LookupDef(s, c, v)
    ensures r.Ok? ==> forall c, v :: LookupDef(s, c, v).Some? ==> LookupDef(r.value.0, c, v) == LookupDef(s, c, v)
    ensures r.Ok? ==> r.value.0.(defs := s.defs) == s
    ensures r.Ok? && Consistent(s) ==> Consistent(r.value.0)
    ensures cd.factoryId == s.factoryId && LookupDef(s, cd.classId, StampVersion(cd, s.version).version) == None ==> r.Ok?
    ensures r.Err? && cd.factoryId == s.factoryId ==>
              r.error == IncompatibleDefinitions &&
              LookupDef(s, cd.classId, StampVersion(cd, s.version).version).Some? &&
              LookupDef(s, cd.classId, StampVersion(cd, s.version).version).value != StampVersion(cd, s.version)
  {
    if cd.factoryId != s.factoryId then Err(InvalidFactory)
    else
      var stamped := StampVersion(cd, s.version);
      var key := (stamped.classId, stamped.version);
      if key !in s.defs then Ok((s.(defs := s.defs[key := stamped]), stamped))
      else if s.defs[key] != stamped then Err(IncompatibleDefinitions)
      else Ok((s, s.defs[key]))
  }

  /** Registering the same definition twice is idempotent: the second call changes nothing and returns the same definition. */
  lemma RegisterTwice(s: ContextState, cd: ClassDefinition)
    requires RegisterDef(s, cd).Ok?
    ensures RegisterDef(RegisterDef(s, cd).value.0, cd) == Ok(RegisterDef(s, cd).value)
  {
  }

  /** One factory's registry, updated in place (single-threaded: the source's lock is not modelled). */
  class ClassDefinitionContext {
    const factoryId: int
    const version: int
    var versionedDefinitions: map<(int, int), ClassDefinition>
    var currentClassVersions: map<int, int>

    function State(): ContextState
      reads this
    {
      ContextState(factoryId, version, currentClassVersions, versionedDefinitions)
    }

    constructor (factoryId: int, version: int)
      ensures State() == EmptyContext(factoryId, version)
    {
      this.factoryId := factoryId;
      this.version := version;
      versionedDefinitions := map[];
      currentClassVersions := map[];
    }

    /** `get_class_version`: what ClassVersionOf gives on this context's state. */
    function GetClassVersion(classId: int): int
      reads this
    {
      ClassVersionOf(State(), classId)
    }

    /** `set_class_version`: writes the dictionary only on a first set; a conflict leaves it untouched. */
    method SetClassVersion(classId: int, v: int) returns (r: Outcome)
      modifies this
      ensures SetVersion(old(State()), classId, v).Ok? ==> r == Pass && State() == SetVersion(old(State()), classId, v).value
      ensures SetVersion(old(State()), classId, v).Err? ==> r == Fail(VersionConflict) && State() == old(State())
    {
      if classId in currentClassVersions {
        var current := currentClassVersions[classId];
        if current != v {
          return Fail(VersionConflict);
        }
        return Pass;
      }
      currentClassVersions := currentClassVersions[classId := v];
      r := Pass;
    }

    /** `lookup`: what LookupDef gives on this context's state. */
    function Lookup(classId: int, v: int): Option<ClassDefinition>
      reads this
    {
      LookupDef(State(), classId, v)
    }

    /** `register`: stores only under a free key; a failure leaves both dictionaries untouched. */
    method Register(cd: ClassDefinition) returns (r: Result<ClassDefinition>)
      modifies this
      ensures RegisterDef(old(State()), cd).Ok? ==>
                r == Ok(RegisterDef(old(State()), cd).value.1) && State() == RegisterDef(old(State()), cd).value.0
      ensures RegisterDef(old(State()), cd).Err? ==>
                r == Err(RegisterDef(old(State()), cd).error) && State() == old(State())
    {
      if cd.factoryId != factoryId {
        return Err(InvalidFactory);
      }
      var stamped := StampVersion(cd, version);
      var key := (stamped.classId, stamped.version);
      if key !in versionedDefinitions {
        versionedDefinitions := versionedDefinitions[key := stamped];
        return Ok(stamped);
      }
      var current := versionedDefinitions[key];
      if current != stamped {
        return Err(IncompatibleDefinitions);
      }
      r := Ok(current);
    }
  }
}
