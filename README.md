# AbilityWar ability registry, modelled in Dafny

This project models the ability registry of the AbilityWar plugin, the class
`AbilityFactory`. The registry is a catalogue kept in three maps:

- `usedNames`: manifest name → ability class;
- `registeredAbilities`: ability class → its `AbilityRegistration`;
- `alternatives`: requested class → the canonical class registered in its place.

`registerAbility(clazz)` builds an `AbilityRegistration`. The constructor of
that record does four things:

1. It runs the version gate. This walks the `@Support` / `@Alternative` chain
   and ends on the canonical class, or throws `UnsupportedVersionException`.
2. It looks up the `(Participant)` constructor and the `@AbilityManifest`.
3. It scans the declared methods for event handlers. It also scans the declared
   fields, which gives the field table, the setting objects and the scheduled
   timers.
4. It computes the capability flag word.

The insert then enforces that the first registered name wins. When the gate
substituted a class, it also records an alternative.

Reflection is replaced by data. A Java class is an opaque `ClassId`, and
`Env.classes` gives its descriptor: support version, alternative, manifest,
whether it has a `(Participant)` constructor, its methods and fields in
declaration order, and its `ActiveHandler`, `TargetHandler` and `@Beta`
marks. The running server's `isOver` test is the parameter `Env.isOver`.

Files, one module each:

- `base.dfy`: `Option`, `Result` and the Java exceptions involved.
- `descriptors.dfy`: the class descriptors and the environment.
- `flags.dfy`: the `Flag` constants and `hasFlag`.
- `versiongate.dfy`: the `while` loop of the gate, first with a bound (`GateWalk`) and then without one (`Gate`, defined when the chain terminates), and the loop as a method.
- `introspection.dfy`: the handler scan and the field scan. Each is a specification function over the member list plus a method with the source's loop.
- `registration.dfy`: the `AbilityRegistration` record, its constructor as a method, and the specification function that method is proved against.
- `factory.dfy`:
  - the registry state as a value (`Registry`);
  - `registerAbility` as a step function (`RegisterStep`);
  - the lookups;
  - the invariant `Valid` and the lemmas about all of these;
  - the static initializer as a fold (`RegisterAll`);
  - the mutable `AbilityFactory` class. Its `RegisterAbility` method updates the three map fields and is proved equal to `RegisterStep`.

Three behaviours of the code that a reader of `registerAbility` might not expect:

- A class whose canonical class is already registered is not recorded as an
  alternative. That case reaches the name check at AbilityFactory.java:62,
  finds the canonical class's name taken, and records nothing
  (`SubstitutionOntoRegisteredRecordsNothing`). So the order of registration
  decides whether `getRegistration` of a substituted class finds anything:
  - if the substituted class comes first, both classes find the same
    registration (`SubstituteFirstSharesRegistration`);
  - if it comes second, it finds nothing (`SubstituteSecondFindsNothing`).
- A missing manifest is not skipped. The `IllegalArgumentException` thrown at
  AbilityFactory.java:215-216 is caught by neither catch clause at
  AbilityFactory.java:73-77. It escapes `registerAbility` (`Completion.Threw`),
  and the fold of the static initializer stops there (`RegisterAll`). An
  exception escaping the static block fails the initialisation of the class
  with an `ExceptionInInitializerError`, after which the factory cannot be
  used at all, so the partial state `RegisterAll` returns is never observed.
- The javadoc at AbilityFactory.java:54 says an already registered ability is
  not registered again. The code tests only the requested class against
  `registeredAbilities` (AbilityFactory.java:59), not through `alternatives`.
  A substituted class registered a second time therefore runs the constructor
  again, and is then dropped by the name check (`RegisterTwice` proves the
  state still does not change).

## Model

| member | source | states |
|---|---|---|
| `Flags.HasFlag` | modules/Plugin/src/daybreak/abilitywar/ability/AbilityFactory.java:292-294 | `hasFlag(f)` holds exactly when every bit of `f` is set in the flag word |
| `Flags.FlagWordBits` | modules/Plugin/src/daybreak/abilitywar/ability/AbilityFactory.java:257-261 | the flag word has ACTIVE_SKILL, TARGET_SKILL and BETA each set exactly when its mark is present, and no other bit |
| `Flags.FlagWord` | modules/Plugin/src/daybreak/abilitywar/ability/AbilityFactory.java:257-261 | the flag word sets no bit outside ACTIVE_SKILL, TARGET_SKILL and BETA, and is zero exactly when the class has none of the three marks |
| `Flags.HasFlagOfFlagWord` | modules/Plugin/src/daybreak/abilitywar/ability/AbilityFactory.java:292-299 | `hasFlag(f)` on a flag word holds exactly when `f` uses only the three defined bits and each bit it uses has its mark present |
| `Flags.HasFlagZero` | modules/Plugin/src/daybreak/abilitywar/ability/AbilityFactory.java:292-294 | `hasFlag(0)` is true of every flag word |
| `VersionGate.GateWalk` | modules/Plugin/src/daybreak/abilitywar/ability/AbilityFactory.java:198-209 | a finished walk ends either on a class with no `@Support` or whose version the server is over, or with UnsupportedVersion at an unsatisfied class that has no `@Alternative` |
| `VersionGate.Gate` | modules/Plugin/src/daybreak/abilitywar/ability/AbilityFactory.java:198-209 | when the loop terminates, it ends either on a class with no `@Support` or whose version the server is over, or with UnsupportedVersion at an unsatisfied class with no `@Alternative` |
| `VersionGate.GateWalkStable` | modules/Plugin/src/daybreak/abilitywar/ability/AbilityFactory.java:198-209 | a walk that finished within some bound gives the same result under every larger bound, so the unbounded loop's outcome is well defined |
| `VersionGate.GateAgrees` | modules/Plugin/src/daybreak/abilitywar/ability/AbilityFactory.java:198-209 | every finished bounded walk agrees with the unbounded loop |
| `VersionGate.GateSubstitutes` | modules/Plugin/src/daybreak/abilitywar/ability/AbilityFactory.java:203-204 | an unsatisfied class with an alternative has the same gate outcome as its alternative |
| `VersionGate.GateCanonicalIsFixed` | modules/Plugin/src/daybreak/abilitywar/ability/AbilityFactory.java:198-211 | the class the gate settles on passes the gate unchanged |
| `VersionGate.GateWalkFollowsChain` | modules/Plugin/src/daybreak/abilitywar/ability/AbilityFactory.java:198-209 | the loop follows a substitution chain from the requested class, in which every class but the last is unsatisfied and names the next as its alternative, and it stops at the chain's last class |
| `VersionGate.ResolveVersion` | modules/Plugin/src/daybreak/abilitywar/ability/AbilityFactory.java:198-211 | the `while` loop returns the canonical class the gate settles on, which is satisfied, or throws UnsupportedVersion exactly when the gate rejects |
| `Introspection.HandlerTableFirstWins` | modules/Plugin/src/daybreak/abilitywar/ability/AbilityFactory.java:222-231 | an event class has a handler entry exactly when some `@SubscribeEvent` method has one parameter of that `Event`-assignable class; the entry binds the first such method in declaration order (`putIfAbsent`) |
| `Introspection.HandlerTable` | modules/Plugin/src/daybreak/abilitywar/ability/AbilityFactory.java:222-231 | every entry of the handler table binds a declared method that handles that event class, paired with its own `@SubscribeEvent` |
| `Introspection.ScanHandlers` | modules/Plugin/src/daybreak/abilitywar/ability/AbilityFactory.java:222-232 | the handler loop builds exactly the handler table of the declared methods |
| `Introspection.ScanField` | modules/Plugin/src/daybreak/abilitywar/ability/AbilityFactory.java:237-250 | one field throws exactly when it is an unreadable static `SettingObject` field, with its exception; otherwise it is listed under its name, adds a setting key exactly when it provides one, and adds itself to the timers exactly when it is a scheduled timer |
| `Introspection.FieldScan` | modules/Plugin/src/daybreak/abilitywar/ability/AbilityFactory.java:237-252 | the field loop can only throw NullPointer or IllegalAccess, and every scheduled timer it collects is a declared non-static `@Scheduled` timer field |
| `Introspection.FieldScanFailsAtFirstUnreadable` | modules/Plugin/src/daybreak/abilitywar/ability/AbilityFactory.java:240-244 | the field scan throws exactly when some static field of type exactly `SettingObject` cannot be read, with NullPointer or IllegalAccess as the first such field dictates |
| `Introspection.FieldScanSettings` | modules/Plugin/src/daybreak/abilitywar/ability/AbilityFactory.java:240-244 | a key has a setting exactly when a static exact-`SettingObject` field yields a setting with that key, and the stored one is from the last such field (`put`) |
| `Introspection.FieldScanTimers` | modules/Plugin/src/daybreak/abilitywar/ability/AbilityFactory.java:245-250 | the scheduled timers are exactly the non-static `GameTimer`-typed fields marked `@Scheduled` |
| `Introspection.FieldScanFields` | modules/Plugin/src/daybreak/abilitywar/ability/AbilityFactory.java:237-238 | every declared field is listed under its name, and a later field of the same name replaces an earlier one |
| `Introspection.FieldScanErrStays` | modules/Plugin/src/daybreak/abilitywar/ability/AbilityFactory.java:237-252 | once a field read has thrown, the scan of the whole field list throws the same exception |
| `Introspection.ScanFields` | modules/Plugin/src/daybreak/abilitywar/ability/AbilityFactory.java:234-255 | the field loop returns exactly the tables of the field scan, or its exception |
| `Registrations.BuildFrom` | modules/Plugin/src/daybreak/abilitywar/ability/AbilityFactory.java:211-262 | after the gate, a built registration carries the settled class, its `(Participant)` constructor and its manifest, and the constructor never throws UnsupportedVersion past the gate |
| `Registrations.Registration` | modules/Plugin/src/daybreak/abilitywar/ability/AbilityFactory.java:197-262 | a built registration belongs to the class the gate settled on, and the constructor throws UnsupportedVersion exactly when the gate rejects |
| `Registrations.RegistrationErrors` | modules/Plugin/src/daybreak/abilitywar/ability/AbilityFactory.java:197-220 | the constructor throws UnsupportedVersion exactly when the gate rejects, NoSuchMethod exactly when the canonical class lacks a `(Participant)` constructor, IllegalArgument exactly when it has that constructor but no manifest, and builds a registration exactly when the gate accepts and the canonical class has that constructor, a manifest and no unreadable setting field (so NullPointer or IllegalAccess is thrown exactly when such a field exists) |
| `Registrations.RegistrationOfCanonical` | modules/Plugin/src/daybreak/abilitywar/ability/AbilityFactory.java:211-217 | a registration belongs to the class the gate settled on, carries that class's manifest and constructor, and that class builds the same registration |
| `Registrations.RegistrationFollowsSubstitution` | modules/Plugin/src/daybreak/abilitywar/ability/AbilityFactory.java:203-204 | an unsatisfied class with an alternative builds the same registration (or failure) as its alternative |
| `Registrations.RegistrationFlags` | modules/Plugin/src/daybreak/abilitywar/ability/AbilityFactory.java:257-261 | a registration's `hasFlag` for each defined flag reflects exactly the mark on its class, and no undefined bit is set |
| `Registrations.NewRegistration` | modules/Plugin/src/daybreak/abilitywar/ability/AbilityFactory.java:197-262 | the constructor, with its loops, returns exactly the registration or exception the specification gives |
| `Factory.GetRegistration` | modules/Plugin/src/daybreak/abilitywar/ability/AbilityFactory.java:81-84 | `getRegistration` only ever returns a stored registration |
| `Factory.IsRegistered` | modules/Plugin/src/daybreak/abilitywar/ability/AbilityFactory.java:86-89 | `isRegistered` holds exactly when `getRegistration` finds a registration |
| `Factory.NameValues` | modules/Plugin/src/daybreak/abilitywar/ability/AbilityFactory.java:166-168 | a name is listed exactly when `getByName` finds a class for it |
| `Factory.GetRegistrations` | modules/Plugin/src/daybreak/abilitywar/ability/AbilityFactory.java:170-172 | the listed registrations are exactly the stored ones |
| `Factory.GetByName` | modules/Plugin/src/daybreak/abilitywar/ability/AbilityFactory.java:181-183 | `getByName` returns a registered class, and returns null exactly for names not in use |
| `Factory.RegisterStep` | modules/Plugin/src/daybreak/abilitywar/ability/AbilityFactory.java:58-79 | a call throws only IllegalArgument and then changes no map; a call that changes the maps is on a new class whose registration was built, and afterwards its manifest name resolves to the class the gate settled on |
| `Factory.Insert` | modules/Plugin/src/daybreak/abilitywar/ability/AbilityFactory.java:63-69 | after the insert, `getByName` of the registration's name gives its class, and `getRegistration` of the requested class gives the registration |
| `Factory.EmptyValid` | modules/Plugin/src/daybreak/abilitywar/ability/AbilityFactory.java:44-46 | the empty maps satisfy the registry invariant |
| `Factory.AlternativesDisjoint` | modules/Plugin/src/daybreak/abilitywar/ability/AbilityFactory.java:67-68 | under the invariant, no alternative key is also a registered class |
| `Factory.InsertPreservesValid` | modules/Plugin/src/daybreak/abilitywar/ability/AbilityFactory.java:63-69 | a successful insert overwrites no registration and no alternative, and keeps the invariant |
| `Factory.RegisterPreservesValid` | modules/Plugin/src/daybreak/abilitywar/ability/AbilityFactory.java:58-79 | `registerAbility` keeps the invariant: every stored registration is what the constructor builds for its class, every alternative and every name points to a registered class, and names and registrations correspond one to one |
| `Factory.RegisterIdempotent` | modules/Plugin/src/daybreak/abilitywar/ability/AbilityFactory.java:58-59 | registering a class that is already a key of `registeredAbilities` changes no map and throws nothing |
| `Factory.RegisterTwice` | modules/Plugin/src/daybreak/abilitywar/ability/AbilityFactory.java:58-79 | a second `registerAbility` of the same class leaves the state the first one produced |
| `Factory.RegisterNameTaken` | modules/Plugin/src/daybreak/abilitywar/ability/AbilityFactory.java:62-71 | a registration whose manifest name is already used changes no map: the first name wins |
| `Factory.RegisterInserts` | modules/Plugin/src/daybreak/abilitywar/ability/AbilityFactory.java:63-69 | a successful insert adds the registration under its canonical class, the name pointing to that class, and an alternative from the requested class exactly when it differs from the canonical one; every old entry keeps its value and no other key appears |
| `Factory.InsertOnlyAdds` | modules/Plugin/src/daybreak/abilitywar/ability/AbilityFactory.java:64-68 | putting absent keys into the three maps adds exactly those keys and leaves the old entries alone |
| `Factory.RegisterFailureUnchanged` | modules/Plugin/src/daybreak/abilitywar/ability/AbilityFactory.java:60-77 | a constructor failure changes no map; the call throws exactly when the failure is the missing-manifest IllegalArgument, and the other four are caught |
| `Factory.RegisterThrowsOnlyWithoutManifest` | modules/Plugin/src/daybreak/abilitywar/ability/AbilityFactory.java:213-216 | `registerAbility` throws exactly when the class is new, the gate accepts it, and its canonical class has a `(Participant)` constructor but no manifest |
| `Factory.SubstitutionOntoRegisteredRecordsNothing` | modules/Plugin/src/daybreak/abilitywar/ability/AbilityFactory.java:62-71 | a class the gate substitutes onto an already-registered class hits the name check and records no alternative |
| `Factory.SubstituteSecondFindsNothing` | modules/Plugin/src/daybreak/abilitywar/ability/AbilityFactory.java:58-84 | a substituted class registered after the class it is substituted onto is not found by `getRegistration` |
| `Factory.ByNameRoundTrip` | modules/Plugin/src/daybreak/abilitywar/ability/AbilityFactory.java:181-183 | for every stored registration, `getByName` of its manifest name returns its class, and `getRegistration` of that class returns it |
| `Factory.NamesResolve` | modules/Plugin/src/daybreak/abilitywar/ability/AbilityFactory.java:166-183 | every listed name resolves to a registered class whose manifest carries that name |
| `Factory.IsRegisteredKeys` | modules/Plugin/src/daybreak/abilitywar/ability/AbilityFactory.java:86-89 | under the invariant, `isRegistered` holds exactly for keys of `registeredAbilities` and of `alternatives` |
| `Factory.LookupIsBuiltRegistration` | modules/Plugin/src/daybreak/abilitywar/ability/AbilityFactory.java:81-84 | `getRegistration` of a registered class returns what the constructor builds for that class, and an alternative looks up the same registration as its canonical class |
| `Factory.NamesUnique` | modules/Plugin/src/daybreak/abilitywar/ability/AbilityFactory.java:63-66 | distinct registered classes carry distinct manifest names |
| `Factory.StoredGates` | modules/Plugin/src/daybreak/abilitywar/ability/AbilityFactory.java:198-211 | under the invariant the gate settles every registered class on itself and every alternative on its target |
| `Factory.UnsupportedNeverRegistered` | modules/Plugin/src/daybreak/abilitywar/ability/AbilityFactory.java:205-207 | a class the gate rejects is neither registered nor an alternative, and no stored registration belongs to it |
| `Factory.RegisterAll` | modules/Plugin/src/daybreak/abilitywar/ability/AbilityFactory.java:91-161 | the only exception that can end the static initializer is the missing-manifest IllegalArgument |
| `Factory.RegisterAllPreservesValid` | modules/Plugin/src/daybreak/abilitywar/ability/AbilityFactory.java:91-161 | the static initializer's sequence of `registerAbility` calls keeps the invariant |
| `Factory.RegisterExtends` | modules/Plugin/src/daybreak/abilitywar/ability/AbilityFactory.java:58-79 | one `registerAbility` call never removes or replaces an entry of any map |
| `Factory.RegisterAllGrows` | modules/Plugin/src/daybreak/abilitywar/ability/AbilityFactory.java:91-161 | the static initializer never removes or replaces an entry of any map |
| `Factory.ExtendsTransitive` | modules/Plugin/src/daybreak/abilitywar/ability/AbilityFactory.java:91-161 | keeping every entry is transitive across successive calls |
| `Factory.FirstNameWins` | modules/Plugin/src/daybreak/abilitywar/ability/AbilityFactory.java:63-71 | of two classes with the same manifest name registered in turn, the first owns the name and the second's registration is not stored |
| `Factory.RegisterAllTwo` | modules/Plugin/src/daybreak/abilitywar/ability/AbilityFactory.java:91-93 | the static initializer over two classes runs the second call on the first call's state, unless the first call threw |
| `Factory.SubstituteFirstSharesRegistration` | modules/Plugin/src/daybreak/abilitywar/ability/AbilityFactory.java:64-68 | a substituted class registered before its canonical class leaves both looking up the one registration |
| `Factory.AbilityFactory.constructor` | modules/Plugin/src/daybreak/abilitywar/ability/AbilityFactory.java:44-46 | the three maps start empty |
| `Factory.AbilityFactory.RegisterAbility` | modules/Plugin/src/daybreak/abilitywar/ability/AbilityFactory.java:58-79 | the method's new maps and its completion are exactly those of the `registerAbility` step function |

## Left out

- Java reflection (`getDeclaredMethods`, `getDeclaredFields`, `Field.get`, `getConstructor`, annotations) is replaced by class descriptors. `Constructor`, `Method`, `Field` and `SubscribeEvent` objects are modelled as plain values or opaque handles.
- The server version detection (`ServerVersion.getVersion()`) is not part of this model. Its `isOver` test is the parameter `Env.isOver`.
- Logging (AbilityFactory.java:71, 74, 76) has no effect on the maps and is not modelled.
- `SecurityException` from `getConstructor` is not modelled. It happens only under a security manager.
- The `Preconditions.checkNotNull` calls on `@Alternative` and manifest values (AbilityFactory.java:204, 218-220) are not modelled. Java annotation values cannot be null, so these calls never throw.
- `SettingObject.getKey()` returning `null` is not modelled: keys are strings.
- `nameValues()` and `getRegistrations()` return copies of `HashMap` views in unspecified order. They are modelled as sets. The unmodifiable wrappers are not modelled, because registrations are immutable values here.
- The manifest's description lines and other annotation attributes are not modelled. The registry never reads them.
- `getDeclaredMethods()` and `getDeclaredFields()` are taken to return members in declaration order. The JVM does not promise any order, and the first-handler-wins result depends on it.
- The ability subclasses (`Emperor.java`, `Celebrity.java`, `Curse.java`), `SummerVacation.java` and `ItemBuilder.java` are gameplay, game-mode and item-builder code built on the Bukkit API and floating point. They are not part of this model.
- The timer engine and the event dispatcher are not part of this model. Their code is not among the modelled sources.
- The fixed list of ability classes at AbilityFactory.java:92-160 is not modelled. `RegisterAll` folds `registerAbility` over any list of classes.
- `VersionGate.ResolveVersion`, `Registrations.NewRegistration` and `Registrations.Registration` require that the substitution chain of the requested class terminates (`GateHalts`). On an `@Alternative` cycle the Java loop never returns; the model does not represent that non-termination.
- `Factory.AbilityFactory.RegisterAbility` requires the same of a class that is not yet registered, and `Factory.RegisterAll` requires it of every listed class, for the same reason.
