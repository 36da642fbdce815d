/**
 * `AbilityFactory`: the catalogue of registered abilities, held in three maps,
 * the `registerAbility` insert and the lookups over the maps.
 */
module Factory {
  import opened Base
  import opened Descriptors
  import opened VersionGate
  import opened Registrations

  /** The three static maps of `AbilityFactory`. */
  datatype Registry = Registry(
    usedNames: map<string, ClassId>,
    registeredAbilities: map<ClassId, AbilityRegistration>,
    alternatives: map<ClassId, ClassId>)

  /** The state before the static initializer runs. */
  const Empty := Registry(map[], map[], map[])

  /** How a call of `registerAbility` ends: it returns, or an exception escapes it. */
  datatype Completion = Returned | Threw(error: Failure)

  /** The state after a call of `registerAbility`, and how the call ended. */
  datatype Step = Step(after: Registry, completion: Completion)

  /** `registerAbility(abilityClass)` on state `s` (AbilityFactory.java:58-79). */
  ghost function RegisterStep(s: Registry, env: Env, abilityClass: ClassId): (r: Step)
    requires abilityClass !in s.registeredAbilities ==> GateHalts(env, abilityClass)
    ensures r.completion.Threw? ==> r.completion.error == IllegalArgument && r.after == s
    ensures r.after != s ==>
      abilityClass !in s.registeredAbilities && Registration(env, abilityClass).Ok?
        && GetByName(r.after, Registration(env, abilityClass).value.manifest.name) == Some(Gate(env, abilityClass).cls)
  {
    if abilityClass in s.registeredAbilities then Step(s, Returned)
    else match Registration(env, abilityClass)
      case Err(e) => Step(s, if e == IllegalArgument then Threw(e) else Returned)
      case Ok(reg) =>
        if reg.manifest.name in s.usedNames then Step(s, Returned)
        else Step(Insert(s, abilityClass, reg), Returned)
  }

  // ----------------------------------------------------------------- queries

  /** `getRegistration(clazz)`: one hop through `alternatives`, then `registeredAbilities`. */
  function GetRegistration(s: Registry, clazz: ClassId): (r: Option<AbilityRegistration>)
    ensures r.Some? ==> r.value in s.registeredAbilities.Values
  {
    var c := if clazz in s.alternatives then s.alternatives[clazz] else clazz;
    if c in s.registeredAbilities then Some(s.registeredAbilities[c]) else None
  }

  /** `isRegistered(clazz)`: the same hop, then a key test. */
  function IsRegistered(s: Registry, clazz: ClassId): (r: bool)
    ensures r <==> GetRegistration(s, clazz).Some?
  {
    var c := if clazz in s.alternatives then s.alternatives[clazz] else clazz;
    c in s.registeredAbilities
  }

  /** `nameValues()`: the used names (a `HashMap` key set, so order is not modelled). */
  function NameValues(s: Registry): (r: set<string>)
    ensures forall n :: n in r <==> GetByName(s, n).Some?
  {
    s.usedNames.Keys
  }

  /** `getRegistrations()`: the stored registrations (order not modelled). */
  function GetRegistrations(s: Registry): (r: set<AbilityRegistration>)
    ensures forall c :: c in s.registeredAbilities ==> s.registeredAbilities[c] in r
    ensures forall reg :: reg in r ==> exists c :: c in s.registeredAbilities && s.registeredAbilities[c] == reg
  {
    s.registeredAbilities.Values
  }

  /** `getByName(name)`. */
  function GetByName(s: Registry, name: string): (r: Option<ClassId>)
    ensures r.Some? ==> r.value in s.usedNames.Values
    ensures r.None? ==> name !in s.usedNames
  {
    if name in s.usedNames then Some(s.usedNames[name]) else None
  }

  // --------------------------------------------------------------- invariant

  /** `c` builds `reg`: the constructor run on `c` returns `reg`. */
  ghost predicate Builds(env: Env, c: ClassId, reg: AbilityRegistration) {
    GateHalts(env, c) && Registration(env, c) == Ok(reg)
  }

  /** Every registration is what the constructor builds for its own class. */
  ghost predicate RegistrationsBuilt(s: Registry, env: Env) {
    forall c :: c in s.registeredAbilities ==>
      s.registeredAbilities[c].abilityClass == c && Builds(env, c, s.registeredAbilities[c])
  }

  /**
   * Every alternative points to another, registered class whose registration
   * is what the constructor builds for the alternative.
   */
  ghost predicate AlternativesBuilt(s: Registry, env: Env) {
    forall a :: a in s.alternatives ==>
      && s.alternatives[a] in s.registeredAbilities
      && s.alternatives[a] != a
      && Builds(env, a, s.registeredAbilities[s.alternatives[a]])
  }

  /** Every used name points to a registered class whose manifest carries it. */
  ghost predicate NamesRegistered(s: Registry) {
    forall n :: n in s.usedNames ==>
      s.usedNames[n] in s.registeredAbilities && s.registeredAbilities[s.usedNames[n]].manifest.name == n
  }

  /** Every registered class is the one its manifest name points to. */
  ghost predicate RegistrationsNamed(s: Registry) {
    forall c :: c in s.registeredAbilities ==>
      s.registeredAbilities[c].manifest.name in s.usedNames && s.usedNames[s.registeredAbilities[c].manifest.name] == c
  }

  /** What holds of the maps after any sequence of `registerAbility` calls in a fixed environment. */
  ghost predicate Valid(s: Registry, env: Env) {
    RegistrationsBuilt(s, env) && AlternativesBuilt(s, env) && NamesRegistered(s) && RegistrationsNamed(s)
  }

  lemma EmptyValid(env: Env)
    ensures Valid(Empty, env)
  {
  }

  /** The state a successful insert leaves (the `then` branch at AbilityFactory.java:63-69). */
  function Insert(s: Registry, abilityClass: ClassId, reg: AbilityRegistration): (r: Registry)
    ensures GetByName(r, reg.manifest.name) == Some(reg.abilityClass)
    ensures abilityClass != reg.abilityClass || abilityClass !in s.alternatives ==>
      GetRegistration(r, abilityClass) == Some(reg)
  {
    var canon := reg.abilityClass;
    Registry(s.usedNames[reg.manifest.name := canon],
             s.registeredAbilities[canon := reg],
             if abilityClass != canon then s.alternatives[abilityClass := canon] else s.alternatives)
  }

  /** An alternative is never a registered class. */
  lemma AlternativesDisjoint(s: Registry, env: Env, c: ClassId)
    requires Valid(s, env)
    ensures c in s.alternatives ==> c !in s.registeredAbilities
  {
  }

  /** The facts about a successful insert that every part of the invariant needs. */
  ghost predicate InsertPremise(s: Registry, env: Env, abilityClass: ClassId, reg: AbilityRegistration) {
    && Valid(s, env)
    && Builds(env, abilityClass, reg)
    && Builds(env, reg.abilityClass, reg)
    && reg.manifest.name !in s.usedNames
  }

  /** A successful insert overwrites no registration and no alternative. */
  lemma InsertFresh(s: Registry, env: Env, abilityClass: ClassId, reg: AbilityRegistration)
    requires InsertPremise(s, env, abilityClass, reg)
    ensures reg.abilityClass !in s.registeredAbilities
    ensures abilityClass != reg.abilityClass ==> abilityClass !in s.alternatives
  {
    assert forall c :: c in s.registeredAbilities ==> s.registeredAbilities[c].manifest.name in s.usedNames;
    assert forall a :: a in s.alternatives ==> Builds(env, a, s.registeredAbilities[s.alternatives[a]]);
    assert forall a :: a in s.alternatives ==> s.registeredAbilities[s.alternatives[a]].manifest.name in s.usedNames;
  }

  lemma InsertKeepsRegistrationsBuilt(s: Registry, env: Env, abilityClass: ClassId, reg: AbilityRegistration)
    requires RegistrationsBuilt(s, env) && Builds(env, reg.abilityClass, reg)
    ensures RegistrationsBuilt(Insert(s, abilityClass, reg), env)
  {
    var t := Insert(s, abilityClass, reg);
    forall c | c in t.registeredAbilities
      ensures t.registeredAbilities[c].abilityClass == c && Builds(env, c, t.registeredAbilities[c])
    {
      if c != reg.abilityClass { assert t.registeredAbilities[c] == s.registeredAbilities[c]; }
    }
  }

  lemma InsertKeepsAlternativesBuilt(s: Registry, env: Env, abilityClass: ClassId, reg: AbilityRegistration)
    requires AlternativesBuilt(s, env) && Builds(env, abilityClass, reg) && reg.abilityClass !in s.registeredAbilities
    ensures AlternativesBuilt(Insert(s, abilityClass, reg), env)
  {
    var t := Insert(s, abilityClass, reg);
    forall a | a in t.alternatives
      ensures t.alternatives[a] in t.registeredAbilities && t.alternatives[a] != a
      ensures Builds(env, a, t.registeredAbilities[t.alternatives[a]])
    {
      if !(a == abilityClass && abilityClass != reg.abilityClass) {
        assert t.alternatives[a] == s.alternatives[a];
        assert s.alternatives[a] in s.registeredAbilities;
        assert t.registeredAbilities[s.alternatives[a]] == s.registeredAbilities[s.alternatives[a]];
      }
    }
  }

  lemma InsertKeepsNamesRegistered(s: Registry, abilityClass: ClassId, reg: AbilityRegistration)
    requires NamesRegistered(s) && reg.abilityClass !in s.registeredAbilities
    ensures NamesRegistered(Insert(s, abilityClass, reg))
  {
    var t := Insert(s, abilityClass, reg);
    forall n | n in t.usedNames
      ensures t.usedNames[n] in t.registeredAbilities && t.registeredAbilities[t.usedNames[n]].manifest.name == n
    {
      if n != reg.manifest.name {
        assert t.usedNames[n] == s.usedNames[n];
        assert s.usedNames[n] in s.registeredAbilities;
        assert t.registeredAbilities[s.usedNames[n]] == s.registeredAbilities[s.usedNames[n]];
      }
    }
  }

  lemma InsertKeepsRegistrationsNamed(s: Registry, abilityClass: ClassId, reg: AbilityRegistration)
    requires RegistrationsNamed(s) && reg.manifest.name !in s.usedNames
    ensures RegistrationsNamed(Insert(s, abilityClass, reg))
  {
    var t := Insert(s, abilityClass, reg);
    forall c | c in t.registeredAbilities
      ensures t.registeredAbilities[c].manifest.name in t.usedNames
      ensures t.usedNames[t.registeredAbilities[c].manifest.name] == c
    {
      if c != reg.abilityClass {
        assert t.registeredAbilities[c] == s.registeredAbilities[c];
        assert s.registeredAbilities[c].manifest.name in s.usedNames;
      }
    }
  }

  /** A successful insert keeps the invariant, and overwrites nothing. */
  lemma InsertPreservesValid(s: Registry, env: Env, abilityClass: ClassId, reg: AbilityRegistration)
    requires Valid(s, env)
    requires Builds(env, abilityClass, reg) && reg.manifest.name !in s.usedNames
    ensures reg.abilityClass !in s.registeredAbilities
    ensures abilityClass != reg.abilityClass ==> abilityClass !in s.alternatives
    ensures Valid(Insert(s, abilityClass, reg), env)
  {
    RegistrationOfCanonical(env, abilityClass, reg);
    assert InsertPremise(s, env, abilityClass, reg);
    InsertFresh(s, env, abilityClass, reg);
    InsertKeepsRegistrationsBuilt(s, env, abilityClass, reg);
    InsertKeepsAlternativesBuilt(s, env, abilityClass, reg);
    InsertKeepsNamesRegistered(s, abilityClass, reg);
    InsertKeepsRegistrationsNamed(s, abilityClass, reg);
  }

  /** `registerAbility` keeps the invariant. */
  lemma RegisterPreservesValid(s: Registry, env: Env, abilityClass: ClassId)
    requires Valid(s, env)
    requires abilityClass !in s.registeredAbilities ==> GateHalts(env, abilityClass)
    ensures Valid(RegisterStep(s, env, abilityClass).after, env)
  {
    if abilityClass !in s.registeredAbilities && Registration(env, abilityClass).Ok? {
      var reg := Registration(env, abilityClass).value;
      if reg.manifest.name !in s.usedNames {
        InsertPreservesValid(s, env, abilityClass, reg);
        assert RegisterStep(s, env, abilityClass).after == Insert(s, abilityClass, reg);
      }
    }
  }

  // ---------------------------------------------------- properties of a call

  /** Registering a class that is already a key leaves every map unchanged. */
  lemma RegisterIdempotent(s: Registry, env: Env, abilityClass: ClassId)
    requires abilityClass in s.registeredAbilities
    ensures RegisterStep(s, env, abilityClass) == Step(s, Returned)
  {
  }

  /** Registering the same class twice in a row has the effect of registering it once. */
  lemma RegisterTwice(s: Registry, env: Env, abilityClass: ClassId)
    requires abilityClass !in s.registeredAbilities ==> GateHalts(env, abilityClass)
    ensures GateHalts(env, abilityClass) || abilityClass in s.registeredAbilities
    ensures RegisterStep(RegisterStep(s, env, abilityClass).after, env, abilityClass).after
         == RegisterStep(s, env, abilityClass).after
  {
  }

  /** A registration whose manifest name is already used changes nothing: the first name wins. */
  lemma RegisterNameTaken(s: Registry, env: Env, abilityClass: ClassId)
    requires abilityClass !in s.registeredAbilities && GateHalts(env, abilityClass)
    requires Registration(env, abilityClass).Ok?
    requires Registration(env, abilityClass).value.manifest.name in s.usedNames
    ensures RegisterStep(s, env, abilityClass) == Step(s, Returned)
  {
  }

  /**
   * A successful insert adds exactly the new registration, its name and, when
   * the gate substituted a class, one alternative; no existing entry of any map
   * is overwritten and no other key appears.
   */
  lemma RegisterInserts(s: Registry, env: Env, abilityClass: ClassId, reg: AbilityRegistration)
    requires Valid(s, env)
    requires abilityClass !in s.registeredAbilities && GateHalts(env, abilityClass)
    requires Registration(env, abilityClass) == Ok(reg) && reg.manifest.name !in s.usedNames
    ensures reg.abilityClass !in s.registeredAbilities && abilityClass !in s.alternatives
    ensures RegisterStep(s, env, abilityClass) == Step(Insert(s, abilityClass, reg), Returned)
    ensures InsertAdds(s, Insert(s, abilityClass, reg), abilityClass, reg)
  {
    InsertPreservesValid(s, env, abilityClass, reg);
    AlternativesDisjoint(s, env, abilityClass);
    InsertOnlyAdds(s, abilityClass, reg);
  }

  /**
   * `t` is `s` with exactly the new registration, its name and, when the class
   * was substituted, one alternative added; every old entry keeps its value.
   */
  ghost predicate InsertAdds(s: Registry, t: Registry, abilityClass: ClassId, reg: AbilityRegistration) {
    && t.registeredAbilities.Keys == s.registeredAbilities.Keys + {reg.abilityClass}
    && t.registeredAbilities[reg.abilityClass] == reg
    && (forall c :: c in s.registeredAbilities ==> t.registeredAbilities[c] == s.registeredAbilities[c])
    && t.usedNames.Keys == s.usedNames.Keys + {reg.manifest.name}
    && t.usedNames[reg.manifest.name] == reg.abilityClass
    && (forall n :: n in s.usedNames ==> t.usedNames[n] == s.usedNames[n])
    && t.alternatives.Keys == (if abilityClass != reg.abilityClass then s.alternatives.Keys + {abilityClass} else s.alternatives.Keys)
    && (abilityClass != reg.abilityClass ==> t.alternatives[abilityClass] == reg.abilityClass)
    && (forall a :: a in s.alternatives ==> t.alternatives[a] == s.alternatives[a])
  }

  /** Inserting keys that are not yet present adds them and leaves every old entry alone. */
  lemma InsertOnlyAdds(s: Registry, abilityClass: ClassId, reg: AbilityRegistration)
    requires reg.abilityClass !in s.registeredAbilities && abilityClass !in s.alternatives
    requires reg.manifest.name !in s.usedNames
    ensures InsertAdds(s, Insert(s, abilityClass, reg), abilityClass, reg)
  {
  }

  /**
   * A failure inside the constructor leaves every map unchanged; only the
   * missing-manifest `IllegalArgumentException` escapes the call.
   */
  lemma RegisterFailureUnchanged(s: Registry, env: Env, abilityClass: ClassId)
    requires abilityClass !in s.registeredAbilities && GateHalts(env, abilityClass)
    requires Registration(env, abilityClass).Err?
    ensures RegisterStep(s, env, abilityClass).after == s
    ensures RegisterStep(s, env, abilityClass).completion.Threw? <==>
      Registration(env, abilityClass).error == IllegalArgument
  {
  }

  /** Only a missing manifest makes `registerAbility` throw. */
  lemma RegisterThrowsOnlyWithoutManifest(s: Registry, env: Env, abilityClass: ClassId)
    requires abilityClass !in s.registeredAbilities ==> GateHalts(env, abilityClass)
    ensures RegisterStep(s, env, abilityClass).completion.Threw? <==>
      && abilityClass !in s.registeredAbilities
      && Gate(env, abilityClass).Canonical?
      && env.classes(Gate(env, abilityClass).cls).participantCtor
      && env.classes(Gate(env, abilityClass).cls).manifest.None?
  {
    if abilityClass !in s.registeredAbilities {
      RegistrationErrors(env, abilityClass);
    }
  }

  /**
   * A class the gate substitutes onto an already-registered class records no
   * alternative: the canonical registration's name is taken.
   */
  lemma SubstitutionOntoRegisteredRecordsNothing(s: Registry, env: Env, abilityClass: ClassId)
    requires Valid(s, env)
    requires abilityClass !in s.registeredAbilities && GateHalts(env, abilityClass)
    requires Gate(env, abilityClass).Canonical? && Gate(env, abilityClass).cls in s.registeredAbilities
    ensures RegisterStep(s, env, abilityClass) == Step(s, Returned)
  {
  }

  /**
   * Registered after the class it is substituted onto, a substituted class is
   * not found by `getRegistration`.
   */
  lemma SubstituteSecondFindsNothing(s: Registry, env: Env, abilityClass: ClassId)
    requires Valid(s, env)
    requires abilityClass !in s.registeredAbilities && abilityClass !in s.alternatives && GateHalts(env, abilityClass)
    requires Gate(env, abilityClass).Canonical? && Gate(env, abilityClass).cls in s.registeredAbilities
    ensures GetRegistration(RegisterStep(s, env, abilityClass).after, abilityClass) == None
  {
    SubstitutionOntoRegisteredRecordsNothing(s, env, abilityClass);
  }

  // ------------------------------------------------- properties of the state

  /** `getByName` of a stored registration's name gives back its class. */
  lemma ByNameRoundTrip(s: Registry, env: Env, reg: AbilityRegistration)
    requires Valid(s, env) && reg in GetRegistrations(s)
    ensures GetByName(s, reg.manifest.name) == Some(reg.abilityClass)
    ensures GetRegistration(s, reg.abilityClass) == Some(reg)
  {
  }

  /** Every name resolves to a registered class whose manifest carries that name. */
  lemma NamesResolve(s: Registry, env: Env, name: string)
    requires Valid(s, env) && name in NameValues(s)
    ensures GetByName(s, name).Some?
    ensures GetRegistration(s, GetByName(s, name).value).Some?
    ensures GetRegistration(s, GetByName(s, name).value).value.manifest.name == name
  {
  }

  /** A class is registered exactly when it is a key of `registeredAbilities` or of `alternatives`. */
  lemma IsRegisteredKeys(s: Registry, env: Env, clazz: ClassId)
    requires Valid(s, env)
    ensures IsRegistered(s, clazz) <==> clazz in s.registeredAbilities || clazz in s.alternatives
  {
  }

  /**
   * Whatever `getRegistration` returns is the registration the constructor builds
   * for the class asked about, so an alternative and its canonical class share one.
   */
  lemma LookupIsBuiltRegistration(s: Registry, env: Env, clazz: ClassId)
    requires Valid(s, env) && IsRegistered(s, clazz)
    ensures GateHalts(env, clazz) && GetRegistration(s, clazz) == Some(Registration(env, clazz).value)
    ensures clazz in s.alternatives ==> GetRegistration(s, clazz) == GetRegistration(s, s.alternatives[clazz])
  {
  }

  /** Distinct registered classes carry distinct manifest names. */
  lemma NamesUnique(s: Registry, env: Env, c1: ClassId, c2: ClassId)
    requires Valid(s, env)
    requires c1 in s.registeredAbilities && c2 in s.registeredAbilities && c1 != c2
    ensures s.registeredAbilities[c1].manifest.name != s.registeredAbilities[c2].manifest.name
  {
  }

  /** A class the gate rejects is never registered, in any form. */
  lemma UnsupportedNeverRegistered(s: Registry, env: Env, clazz: ClassId)
    requires Valid(s, env) && GateHalts(env, clazz) && Gate(env, clazz).Unsupported?
    ensures !IsRegistered(s, clazz)
    ensures forall reg :: reg in GetRegistrations(s) ==> reg.abilityClass != clazz
  {
  }

  /** Under the invariant, the gate settles every registered class on itself and every alternative on its target. */
  lemma StoredGates(s: Registry, env: Env)
    requires Valid(s, env)
    ensures forall c :: c in s.registeredAbilities ==> GateHalts(env, c) && Gate(env, c) == Canonical(c)
    ensures forall a :: a in s.alternatives ==> GateHalts(env, a) && Gate(env, a) == Canonical(s.alternatives[a])
    ensures forall reg :: reg in GetRegistrations(s) ==> GateHalts(env, reg.abilityClass) && Gate(env, reg.abilityClass) == Canonical(reg.abilityClass)
  {
  }

  // ------------------------------------------------------ the static block

  /** The static initializer: `registerAbility` for each class in order, stopping at an escaped exception. */
  ghost function RegisterAll(s: Registry, env: Env, classes: seq<ClassId>): (r: Step)
    requires forall i :: 0 <= i < |classes| ==> GateHalts(env, classes[i])
    ensures r.completion.Threw? ==> r.completion.error == IllegalArgument
    decreases |classes|
  {
    if classes == [] then Step(s, Returned)
    else
      var first := RegisterStep(s, env, classes[0]);
      if first.completion.Threw? then first else RegisterAll(first.after, env, classes[1..])
  }

  /** The static initializer keeps the invariant. */
  lemma {:induction false} RegisterAllPreservesValid(s: Registry, env: Env, classes: seq<ClassId>)
    requires Valid(s, env)
    requires forall i :: 0 <= i < |classes| ==> GateHalts(env, classes[i])
    ensures Valid(RegisterAll(s, env, classes).after, env)
    decreases |classes|
  {
    if classes != [] {
      RegisterPreservesValid(s, env, classes[0]);
      var first := RegisterStep(s, env, classes[0]);
      if first.completion.Returned? {
        RegisterAllPreservesValid(first.after, env, classes[1..]);
      }
    }
  }

  /** Entries are only ever added: the static initializer never removes or replaces one. */
  lemma {:induction false} RegisterAllGrows(s: Registry, env: Env, classes: seq<ClassId>)
    requires Valid(s, env)
    requires forall i :: 0 <= i < |classes| ==> GateHalts(env, classes[i])
    ensures Extends(s, RegisterAll(s, env, classes).after)
    decreases |classes|
  {
    if classes != [] {
      var first := RegisterStep(s, env, classes[0]);
      RegisterExtends(s, env, classes[0]);
      if first.completion.Returned? {
        RegisterPreservesValid(s, env, classes[0]);
        var rest := RegisterAll(first.after, env, classes[1..]);
        assert RegisterAll(s, env, classes) == rest;
        RegisterAllGrows(first.after, env, classes[1..]);
        ExtendsTransitive(s, first.after, rest.after);
      } else {
        assert RegisterAll(s, env, classes) == first;
      }
    }
  }

  /** One call of `registerAbility` only adds entries. */
  lemma RegisterExtends(s: Registry, env: Env, abilityClass: ClassId)
    requires Valid(s, env)
    requires abilityClass !in s.registeredAbilities ==> GateHalts(env, abilityClass)
    ensures Extends(s, RegisterStep(s, env, abilityClass).after)
  {
    if abilityClass !in s.registeredAbilities && Registration(env, abilityClass).Ok? {
      var reg := Registration(env, abilityClass).value;
      if reg.manifest.name !in s.usedNames {
        RegisterInserts(s, env, abilityClass, reg);
      }
    }
  }

  /** Every entry of every map of `s` is in `t` with the same value. */
  ghost predicate Extends(s: Registry, t: Registry) {
    && (forall c :: c in s.registeredAbilities ==> c in t.registeredAbilities && t.registeredAbilities[c] == s.registeredAbilities[c])
    && (forall n :: n in s.usedNames ==> n in t.usedNames && t.usedNames[n] == s.usedNames[n])
    && (forall a :: a in s.alternatives ==> a in t.alternatives && t.alternatives[a] == s.alternatives[a])
  }

  lemma ExtendsTransitive(r: Registry, s: Registry, t: Registry)
    requires Extends(r, s) && Extends(s, t)
    ensures Extends(r, t)
  {
  }

  /**
   * Two distinct classes with registrations of the same name, registered one
   * after the other: the first keeps the name and the second is not stored.
   */
  lemma FirstNameWins(s: Registry, env: Env, c1: ClassId, c2: ClassId, r1: AbilityRegistration, r2: AbilityRegistration)
    requires Valid(s, env)
    requires c1 !in s.registeredAbilities && GateHalts(env, c1) && Registration(env, c1) == Ok(r1)
    requires GateHalts(env, c2) && Registration(env, c2) == Ok(r2)
    requires r1.manifest.name == r2.manifest.name && r1.abilityClass != r2.abilityClass
    requires r1.manifest.name !in s.usedNames
    ensures var t := RegisterAll(s, env, [c1, c2]).after;
      && GetByName(t, r1.manifest.name) == Some(r1.abilityClass)
      && r1 in GetRegistrations(t)
      && r2 !in GetRegistrations(t)
  {
    RegisterInserts(s, env, c1, r1);
    RegisterPreservesValid(s, env, c1);
    var t1 := RegisterStep(s, env, c1).after;
    // no registration in t1 is r2: the only one with r2's name belongs to r1's class
    forall c | c in t1.registeredAbilities ensures t1.registeredAbilities[c] != r2 {
      if c != r1.abilityClass {
        NamesUnique(t1, env, r1.abilityClass, c);
      }
    }
    assert c2 !in t1.registeredAbilities;
    assert RegisterStep(t1, env, c2).after == t1;
    assert [c1, c2][1..] == [c2] && [c2][1..] == [];
    assert RegisterAll(t1, env, [c2]).after == t1;
  }

  /**
   * A class substituted by a registrable class, registered before that class:
   * both are then registered and look up the one registration.
   */
  lemma SubstituteFirstSharesRegistration(s: Registry, env: Env, requested: ClassId, reg: AbilityRegistration)
    requires Valid(s, env)
    requires requested !in s.registeredAbilities && GateHalts(env, requested)
    requires Registration(env, requested) == Ok(reg) && reg.abilityClass != requested
    requires reg.manifest.name !in s.usedNames
    ensures GateHalts(env, reg.abilityClass)
    ensures var t := RegisterAll(s, env, [requested, reg.abilityClass]).after;
      && GetRegistration(t, requested) == Some(reg)
      && GetRegistration(t, reg.abilityClass) == Some(reg)
  {
    RegistrationOfCanonical(env, requested, reg);
    var t1 := Insert(s, requested, reg);
    assert RegisterStep(s, env, requested) == Step(t1, Returned);
    RegisterIdempotent(t1, env, reg.abilityClass);
    RegisterAllTwo(s, env, requested, reg.abilityClass);
  }

  /** The static initializer over two classes: the second call runs on the first call's state. */
  lemma RegisterAllTwo(s: Registry, env: Env, c1: ClassId, c2: ClassId)
    requires GateHalts(env, c1) && GateHalts(env, c2)
    ensures var first := RegisterStep(s, env, c1);
      RegisterAll(s, env, [c1, c2]) == if first.completion.Threw? then first else RegisterStep(first.after, env, c2)
  {
    assert [c1, c2][1..] == [c2] && [c2][1..] == [];
    var first := RegisterStep(s, env, c1);
    if !first.completion.Threw? {
      var second := RegisterStep(first.after, env, c2);
      assert RegisterAll(second.after, env, []) == Step(second.after, Returned);
      assert RegisterAll(first.after, env, [c2]) == second;
    }
  }

  // ------------------------------------------------------ the mutable factory

  /** The factory's static state, as an object whose methods update its maps. */
  class AbilityFactory {
    var usedNames: map<string, ClassId>
    var registeredAbilities: map<ClassId, AbilityRegistration>
    var alternatives: map<ClassId, ClassId>

    /** The current contents of the three maps. */
    function State(): Registry
      reads this
    {
      Registry(usedNames, registeredAbilities, alternatives)
    }

    constructor ()
      ensures State() == Empty
    {
      usedNames := map[];
      registeredAbilities := map[];
      alternatives := map[];
    }

    /** `registerAbility` (AbilityFactory.java:58-79). */
    method RegisterAbility(env: Env, abilityClass: ClassId) returns (completion: Completion)
      requires abilityClass !in registeredAbilities ==> GateHalts(env, abilityClass)
      modifies this
      ensures Step(State(), completion) == RegisterStep(old(State()), env, abilityClass)
    {
      completion := Returned;
      if abilityClass !in registeredAbilities {
        var registration := NewRegistration(env, abilityClass);
        match registration
        case Err(e) =>
          // NoSuchMethod, IllegalAccess, NullPointer and UnsupportedVersion are caught and logged
          if e == IllegalArgument {
            completion := Threw(e);
          }
        case Ok(reg) =>
          var name := reg.manifest.name;
          if name !in usedNames {
            var registeredClass := reg.abilityClass;
            registeredAbilities := registeredAbilities[registeredClass := reg];
            usedNames := usedNames[name := registeredClass];
            if abilityClass != registeredClass {
              alternatives := alternatives[abilityClass := registeredClass];
            }
          }
      }
    }
  }
}
