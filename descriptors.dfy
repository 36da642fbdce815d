/**
 * What the registry learns about an ability class through reflection,
 * recorded as plain data. A Java class is an opaque id; everything that
 * `Class`, `Method` and `Field` would be asked about it is in its descriptor.
 */
module Descriptors {
  import opened Base

  /** Identity of a Java class (ability classes, event classes, ...). */
  type ClassId = nat

  /** A Minecraft server version named by a `@Support` annotation. */
  type Version = nat

  /** The `@AbilityManifest` annotation: display name, rank and species. */
  datatype Manifest = Manifest(name: string, rank: nat, species: nat)

  /** The `@SubscribeEvent` annotation instance on a method (opaque). */
  datatype Subscription = Subscription(handle: nat)

  /** A declared parameter type, and whether `Event` is assignable from it. */
  datatype ParamDesc = ParamDesc(cls: ClassId, isEvent: bool)

  /** A declared method: its `@SubscribeEvent` mark and its parameter types. */
  datatype MethodDesc = MethodDesc(name: string, subscription: Option<Subscription>, params: seq<ParamDesc>)

  /** A `SettingObject` instance, identified by its configuration key. */
  datatype SettingObject = SettingObject(key: string, handle: nat)

  /**
   * The declared type of a field: exactly `SettingObject`, a class that
   * `GameTimer` is assignable from, or anything else.
   */
  datatype FieldKind = SettingObjectType | TimerType | OtherType

  /** What reading a static field with `Field.get(null)` yields. */
  datatype StaticRead = ReadsSetting(setting: SettingObject) | ReadsNull | AccessDenied

  /** A declared field: name, `static` modifier, type, `@Scheduled` mark, static value. */
  datatype FieldDesc = FieldDesc(
    name: string,
    isStatic: bool,
    kind: FieldKind,
    scheduled: bool,
    staticValue: StaticRead)

  /**
   * Everything reflection reveals about one ability class, in declaration order
   * for methods and fields.
   */
  datatype ClassDesc = ClassDesc(
    support: Option<Version>,       // `@Support(value)`
    alternative: Option<ClassId>,   // `@Alternative(value)`
    manifest: Option<Manifest>,     // `@AbilityManifest`
    participantCtor: bool,          // a public constructor taking a `Participant`
    methods: seq<MethodDesc>,       // `getDeclaredMethods()`
    fields: seq<FieldDesc>,         // `getDeclaredFields()`
    activeHandler: bool,            // implements `ActiveHandler`
    targetHandler: bool,            // implements `TargetHandler`
    beta: bool)                     // `@Beta`

  /**
   * The world the registry runs in: the descriptor of every class and the
   * running server's `isOver` test.
   */
  datatype Env = Env(classes: ClassId -> ClassDesc, isOver: Version -> bool)
}
