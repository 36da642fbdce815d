/**
 * `AbilityFactory.AbilityRegistration`: the immutable record built for one
 * ability class, and the constructor that builds it.
 */
module Registrations {
  import opened Base
  import opened Descriptors
  import opened Flags
  import opened VersionGate
  import opened Introspection

  /** The `Constructor<? extends AbilityBase>` taking a `Participant` (an opaque handle). */
  datatype CtorHandle = CtorHandle(owner: ClassId)

  /** The final fields of an `AbilityRegistration`. */
  datatype AbilityRegistration = AbilityRegistration(
    abilityClass: ClassId,
    ctor: CtorHandle,
    manifest: Manifest,
    eventHandlers: map<ClassId, HandlerBinding>,
    fields: map<string, FieldDesc>,
    settingObjects: map<string, SettingObject>,
    scheduledTimers: set<FieldDesc>,
    flag: JavaInt)

  /** The constructor's work once the gate has settled on class `canon`. */
  function BuildFrom(env: Env, canon: ClassId): (r: Result<AbilityRegistration>)
    ensures r.Ok? ==>
      r.value.abilityClass == canon && r.value.ctor == CtorHandle(canon)
        && Some(r.value.manifest) == env.classes(canon).manifest
    ensures r.Err? ==> r.error != UnsupportedVersion
  {
    var d := env.classes(canon);
    if !d.participantCtor then Err(NoSuchMethod)
    else if d.manifest.None? then Err(IllegalArgument)
    else match FieldScan(d.fields)
      case Err(e) => Err(e)
      case Ok(t) =>
        Ok(AbilityRegistration(canon, CtorHandle(canon), d.manifest.value, HandlerTable(d.methods),
                               t.fields, t.settings, t.timers, FlagWord(d.activeHandler, d.targetHandler, d.beta)))
  }

  /** What `new AbilityRegistration(clazz)` returns or throws. */
  ghost function Registration(env: Env, requested: ClassId): (r: Result<AbilityRegistration>)
    requires GateHalts(env, requested)
    ensures r.Ok? ==> Gate(env, requested) == Canonical(r.value.abilityClass)
    ensures r == Err(UnsupportedVersion) <==> Gate(env, requested).Unsupported?
  {
    match Gate(env, requested)
    case Canonical(canon) => BuildFrom(env, canon)
    case _ => Err(UnsupportedVersion)
  }

  /**
   * The constructor throws, in this order of checks: `UnsupportedVersion` when
   * the gate fails, `NoSuchMethod` when the canonical class has no
   * `(Participant)` constructor, `IllegalArgument` when it has no manifest, and
   * the field scan's exception when a setting field cannot be read.
   */
  lemma RegistrationErrors(env: Env, requested: ClassId)
    requires GateHalts(env, requested)
    ensures Registration(env, requested) == Err(UnsupportedVersion) <==> Gate(env, requested).Unsupported?
    ensures Registration(env, requested) == Err(NoSuchMethod) <==>
      Gate(env, requested).Canonical? && !env.classes(Gate(env, requested).cls).participantCtor
    ensures Registration(env, requested) == Err(IllegalArgument) <==>
      Gate(env, requested).Canonical? && env.classes(Gate(env, requested).cls).participantCtor
        && env.classes(Gate(env, requested).cls).manifest.None?
    ensures Registration(env, requested).Ok? <==>
      Gate(env, requested).Canonical? && env.classes(Gate(env, requested).cls).participantCtor
        && env.classes(Gate(env, requested).cls).manifest.Some?
        && forall f :: f in env.classes(Gate(env, requested).cls).fields ==> !IsUnreadable(f)
  {
    var g := Gate(env, requested);
    if g.Canonical? {
      var d := env.classes(g.cls);
      FieldScanFailsAtFirstUnreadable(d.fields);
      var scan := FieldScan(d.fields);
      if scan.Err? {
        assert scan.error == NullPointer || scan.error == IllegalAccess by {
          var i :| 0 <= i < |d.fields| && IsUnreadable(d.fields[i]) && scan.error == ReadError(d.fields[i])
            && forall j :: 0 <= j < i ==> !IsUnreadable(d.fields[j]);
        }
      }
    }
  }

  /**
   * A built registration belongs to the class the gate settled on, carries that
   * class's manifest, and the settled class builds the same registration itself.
   */
  lemma RegistrationOfCanonical(env: Env, requested: ClassId, reg: AbilityRegistration)
    requires GateHalts(env, requested) && Registration(env, requested) == Ok(reg)
    ensures Gate(env, requested) == Canonical(reg.abilityClass)
    ensures Accepts(env, reg.abilityClass)
    ensures Some(reg.manifest) == env.classes(reg.abilityClass).manifest
    ensures reg.ctor == CtorHandle(reg.abilityClass)
    ensures GateHalts(env, reg.abilityClass) && Registration(env, reg.abilityClass) == Ok(reg)
  {
    GateCanonicalIsFixed(env, requested);
  }

  /** An alternative and the class it is redirected to build the same registration. */
  lemma RegistrationFollowsSubstitution(env: Env, requested: ClassId)
    requires GateHalts(env, requested)
    requires !Accepts(env, requested) && env.classes(requested).alternative.Some?
    ensures GateHalts(env, env.classes(requested).alternative.value)
    ensures Registration(env, env.classes(requested).alternative.value) == Registration(env, requested)
  {
    GateSubstitutes(env, requested);
  }

  /** The flag word of a registration reflects exactly the three marks of its class. */
  lemma RegistrationFlags(env: Env, requested: ClassId, reg: AbilityRegistration)
    requires GateHalts(env, requested) && Registration(env, requested) == Ok(reg)
    ensures HasFlag(reg.flag, ActiveSkill) <==> env.classes(reg.abilityClass).activeHandler
    ensures HasFlag(reg.flag, TargetSkill) <==> env.classes(reg.abilityClass).targetHandler
    ensures HasFlag(reg.flag, Beta) <==> env.classes(reg.abilityClass).beta
    ensures reg.flag & !(ActiveSkill | TargetSkill | Beta) == 0
  {
  }

  /** The `AbilityRegistration` constructor (AbilityFactory.java:197-262). */
  method NewRegistration(env: Env, requested: ClassId) returns (r: Result<AbilityRegistration>)
    requires GateHalts(env, requested)
    ensures r == Registration(env, requested)
  {
    var gate := ResolveVersion(env, requested);
    if gate.Err? {
      return Err(gate.error);
    }
    var clazz := gate.value;
    var d := env.classes(clazz);
    if !d.participantCtor {
      return Err(NoSuchMethod);
    }
    var ctor := CtorHandle(clazz);
    if d.manifest.None? {
      return Err(IllegalArgument);
    }
    var manifest := d.manifest.value;
    var eventhandlers := ScanHandlers(d.methods);
    var tables := ScanFields(d.fields);
    if tables.Err? {
      return Err(tables.error);
    }
    var flag: JavaInt := 0x0;
    if d.activeHandler { flag := flag | ActiveSkill; }
    if d.targetHandler { flag := flag | TargetSkill; }
    if d.beta { flag := flag | Beta; }
    r := Ok(AbilityRegistration(clazz, ctor, manifest, eventhandlers,
                                tables.value.fields, tables.value.settings, tables.value.timers, flag));
  }
}
