/**
 * The member scans of the `AbilityRegistration` constructor: the event-handler
 * table built from the declared methods, and the field, setting and
 * scheduled-timer tables built from the declared fields.
 */
module Introspection {
  import opened Base
  import opened Descriptors

  // ---------------------------------------------------------------- handlers

  /** A method the scan keeps: `@SubscribeEvent` and exactly one `Event`-assignable parameter. */
  predicate IsHandler(m: MethodDesc) {
    m.subscription.Some? && |m.params| == 1 && m.params[0].isEvent
  }

  /** `m` is a kept handler for event class `k`. */
  predicate HandlesEvent(m: MethodDesc, k: ClassId) {
    IsHandler(m) && m.params[0].cls == k
  }

  /** The `Pair.of(method, subscribeEvent)` stored for a handler. */
  datatype HandlerBinding = HandlerBinding(handler: MethodDesc, subscription: Subscription)

  function Bind(m: MethodDesc): (r: HandlerBinding)
    requires IsHandler(m)
  {
    HandlerBinding(m, m.subscription.value)
  }

  /** The handler table after the scan has seen the methods `ms`, in order (`putIfAbsent`). */
  function HandlerTable(ms: seq<MethodDesc>): (r: map<ClassId, HandlerBinding>)
    ensures forall k :: k in r ==> r[k].handler in ms && HandlesEvent(r[k].handler, k) && r[k] == Bind(r[k].handler)
    decreases |ms|
  {
    if ms == [] then map[]
    else
      var t := HandlerTable(ms[..|ms| - 1]);
      var m := ms[|ms| - 1];
      if IsHandler(m) && m.params[0].cls !in t then t[m.params[0].cls := Bind(m)] else t
  }

  /**
   * An event class has an entry exactly when some declared method handles it,
   * and the entry binds the first such method in declaration order.
   */
  lemma {:induction false} HandlerTableFirstWins(ms: seq<MethodDesc>, k: ClassId)
    ensures k in HandlerTable(ms) <==> exists i :: 0 <= i < |ms| && HandlesEvent(ms[i], k)
    ensures k in HandlerTable(ms) ==>
      exists i :: 0 <= i < |ms| && HandlesEvent(ms[i], k) && HandlerTable(ms)[k] == Bind(ms[i])
        && forall j :: 0 <= j < i ==> !HandlesEvent(ms[j], k)
    decreases |ms|
  {
    if ms != [] {
      var init := ms[..|ms| - 1];
      var m := ms[|ms| - 1];
      HandlerTableFirstWins(init, k);
      assert forall i :: 0 <= i < |init| ==> init[i] == ms[i];
      if k in HandlerTable(init) {
        var i :| 0 <= i < |init| && HandlesEvent(init[i], k) && HandlerTable(init)[k] == Bind(init[i])
          && forall j :: 0 <= j < i ==> !HandlesEvent(init[j], k);
        assert HandlesEvent(ms[i], k) && HandlerTable(ms)[k] == Bind(ms[i]);
      } else if HandlesEvent(m, k) {
        assert HandlerTable(ms)[k] == Bind(ms[|ms| - 1]);
      } else {
        assert k !in HandlerTable(ms);
        forall i | 0 <= i < |ms| ensures !HandlesEvent(ms[i], k) {
          if i < |init| { assert ms[i] == init[i]; }
        }
      }
    }
  }

  /** The handler loop (AbilityFactory.java:222-231). */
  method ScanHandlers(ms: seq<MethodDesc>) returns (handlers: map<ClassId, HandlerBinding>)
    ensures handlers == HandlerTable(ms)
  {
    handlers := map[];
    for i := 0 to |ms|
      invariant handlers == HandlerTable(ms[..i])
    {
      var m := ms[i];
      assert ms[..i + 1][..i] == ms[..i];
      if m.subscription.Some? {
        var parameters := m.params;
        if |parameters| == 1 && parameters[0].isEvent {
          if parameters[0].cls !in handlers {
            handlers := handlers[parameters[0].cls := HandlerBinding(m, m.subscription.value)];
          }
        }
      }
    }
    assert ms[..|ms|] == ms;
  }

  // ------------------------------------------------------------------ fields

  /** The three tables the field loop fills. */
  datatype FieldTables = FieldTables(
    fields: map<string, FieldDesc>,
    settings: map<string, SettingObject>,
    timers: set<FieldDesc>)

  /** A static field whose type is exactly `SettingObject`: the loop reads it. */
  predicate IsSettingField(f: FieldDesc) {
    f.isStatic && f.kind == SettingObjectType
  }

  /** A setting field whose read throws (it holds `null`, or access is denied). */
  predicate IsUnreadable(f: FieldDesc) {
    IsSettingField(f) && !f.staticValue.ReadsSetting?
  }

  /** The exception reading an unreadable setting field raises. */
  function ReadError(f: FieldDesc): (r: Failure)
    requires IsUnreadable(f)
  {
    if f.staticValue.ReadsNull? then NullPointer else IllegalAccess
  }

  /** A setting field that yields a setting object with key `k`. */
  predicate ProvidesSetting(f: FieldDesc, k: string) {
    IsSettingField(f) && f.staticValue.ReadsSetting? && f.staticValue.setting.key == k
  }

  /** A non-static field of a `GameTimer` type marked `@Scheduled`. */
  predicate IsScheduledTimer(f: FieldDesc) {
    !f.isStatic && f.kind == TimerType && f.scheduled
  }

  /** One iteration of the field loop. */
  function ScanField(t: FieldTables, f: FieldDesc): (r: Result<FieldTables>)
    ensures r.Err? <==> IsUnreadable(f)
    ensures r.Err? ==> r.error == ReadError(f)
    ensures r.Ok? ==> r.value.fields == t.fields[f.name := f]
    ensures r.Ok? ==> forall k :: k in r.value.settings <==> k in t.settings || ProvidesSetting(f, k)
    ensures r.Ok? ==> r.value.timers == t.timers + (if IsScheduledTimer(f) then {f} else {})
  {
    var t1 := t.(fields := t.fields[f.name := f]);
    if f.isStatic then
      if f.kind == SettingObjectType then
        match f.staticValue
        case ReadsSetting(s) => Ok(t1.(settings := t1.settings[s.key := s]))
        case ReadsNull => Err(NullPointer)
        case AccessDenied => Err(IllegalAccess)
      else Ok(t1)
    else if f.kind == TimerType && f.scheduled then Ok(t1.(timers := t1.timers + {f}))
    else Ok(t1)
  }

  /** The tables after the field loop has seen the fields `fs`, in order. */
  function FieldScan(fs: seq<FieldDesc>): (r: Result<FieldTables>)
    ensures r.Err? ==> r.error == NullPointer || r.error == IllegalAccess
    ensures r.Ok? ==> forall f :: f in r.value.timers ==> f in fs && IsScheduledTimer(f)
    decreases |fs|
  {
    if fs == [] then Ok(FieldTables(map[], map[], {}))
    else match FieldScan(fs[..|fs| - 1])
      case Err(e) => Err(e)
      case Ok(t) => ScanField(t, fs[|fs| - 1])
  }

  /** The scan fails exactly when some setting field is unreadable, with the first one's exception. */
  lemma {:induction false} FieldScanFailsAtFirstUnreadable(fs: seq<FieldDesc>)
    ensures FieldScan(fs).Err? <==> exists i :: 0 <= i < |fs| && IsUnreadable(fs[i])
    ensures FieldScan(fs).Err? ==>
      exists i :: 0 <= i < |fs| && IsUnreadable(fs[i]) && FieldScan(fs).error == ReadError(fs[i])
        && forall j :: 0 <= j < i ==> !IsUnreadable(fs[j])
    decreases |fs|
  {
    if fs != [] {
      var init := fs[..|fs| - 1];
      var f := fs[|fs| - 1];
      FieldScanFailsAtFirstUnreadable(init);
      assert forall i :: 0 <= i < |init| ==> init[i] == fs[i];
      if FieldScan(init).Err? {
        var i :| 0 <= i < |init| && IsUnreadable(init[i]) && FieldScan(init).error == ReadError(init[i])
          && forall j :: 0 <= j < i ==> !IsUnreadable(init[j]);
        assert IsUnreadable(fs[i]);
      } else if IsUnreadable(f) {
        assert FieldScan(fs).error == ReadError(fs[|fs| - 1]);
      } else {
        assert FieldScan(fs).Ok?;
        forall i | 0 <= i < |fs| ensures !IsUnreadable(fs[i]) {
          if i < |init| { assert fs[i] == init[i]; }
        }
      }
    }
  }

  /** A successful scan for `fs + [f]` extends the scan for `fs` by one step. */
  lemma FieldScanSnoc(fs: seq<FieldDesc>, t: FieldTables)
    requires fs != [] && FieldScan(fs) == Ok(t)
    ensures FieldScan(fs[..|fs| - 1]).Ok?
    ensures ScanField(FieldScan(fs[..|fs| - 1]).value, fs[|fs| - 1]) == Ok(t)
  {
  }

  /** The scheduled timers are exactly the scheduled timer fields. */
  lemma {:induction false} FieldScanTimers(fs: seq<FieldDesc>, t: FieldTables)
    requires FieldScan(fs) == Ok(t)
    ensures t.timers == set f | f in fs && IsScheduledTimer(f)
    decreases |fs|
  {
    if fs != [] {
      var init := fs[..|fs| - 1];
      var f := fs[|fs| - 1];
      FieldScanSnoc(fs, t);
      var t0 := FieldScan(init).value;
      FieldScanTimers(init, t0);
      assert fs == init + [f];
      assert t.timers == t0.timers + (if IsScheduledTimer(f) then {f} else {});
    }
  }

  /**
   * A key has a setting exactly when some setting field provides it, and the
   * stored setting comes from the last such field (`put` overwrites).
   */
  lemma {:induction false} FieldScanSettings(fs: seq<FieldDesc>, t: FieldTables, k: string)
    requires FieldScan(fs) == Ok(t)
    ensures k in t.settings <==> exists i :: 0 <= i < |fs| && ProvidesSetting(fs[i], k)
    ensures k in t.settings ==>
      exists i :: 0 <= i < |fs| && ProvidesSetting(fs[i], k) && t.settings[k] == fs[i].staticValue.setting
        && forall j :: i < j < |fs| ==> !ProvidesSetting(fs[j], k)
    decreases |fs|
  {
    if fs != [] {
      var init := fs[..|fs| - 1];
      var f := fs[|fs| - 1];
      FieldScanSnoc(fs, t);
      var t0 := FieldScan(init).value;
      FieldScanSettings(init, t0, k);
      assert forall i :: 0 <= i < |init| ==> init[i] == fs[i];
      if ProvidesSetting(f, k) {
        assert t.settings[k] == fs[|fs| - 1].staticValue.setting;
      } else {
        assert (k in t.settings) == (k in t0.settings);
        if k in t0.settings {
          assert t.settings[k] == t0.settings[k];
          var i :| 0 <= i < |init| && ProvidesSetting(init[i], k) && t0.settings[k] == init[i].staticValue.setting
            && forall j :: i < j < |init| ==> !ProvidesSetting(init[j], k);
          assert ProvidesSetting(fs[i], k);
        } else {
          forall i | 0 <= i < |fs| ensures !ProvidesSetting(fs[i], k) {
            if i < |init| { assert fs[i] == init[i]; }
          }
        }
      }
    }
  }

  /** Every declared field is listed under its name; a later field of the same name replaces an earlier one. */
  lemma {:induction false} FieldScanFields(fs: seq<FieldDesc>, t: FieldTables, n: string)
    requires FieldScan(fs) == Ok(t)
    ensures n in t.fields <==> exists i :: 0 <= i < |fs| && fs[i].name == n
    ensures n in t.fields ==>
      exists i :: 0 <= i < |fs| && fs[i].name == n && t.fields[n] == fs[i]
        && forall j :: i < j < |fs| ==> fs[j].name != n
    decreases |fs|
  {
    if fs != [] {
      var init := fs[..|fs| - 1];
      var f := fs[|fs| - 1];
      FieldScanSnoc(fs, t);
      var t0 := FieldScan(init).value;
      FieldScanFields(init, t0, n);
      assert forall i :: 0 <= i < |init| ==> init[i] == fs[i];
      if f.name == n {
        assert t.fields[n] == fs[|fs| - 1];
      } else {
        assert (n in t.fields) == (n in t0.fields);
        if n in t0.fields {
          var i :| 0 <= i < |init| && init[i].name == n && t0.fields[n] == init[i]
            && forall j :: i < j < |init| ==> init[j].name != n;
          assert fs[i].name == n;
        } else {
          forall i | 0 <= i < |fs| ensures fs[i].name != n {
            if i < |init| { assert fs[i] == init[i]; }
          }
        }
      }
    }
  }

  /** The field loop (AbilityFactory.java:234-255). */
  method ScanFields(fs: seq<FieldDesc>) returns (r: Result<FieldTables>)
    ensures r == FieldScan(fs)
  {
    var fields: map<string, FieldDesc> := map[];
    var settingObjects: map<string, SettingObject> := map[];
    var scheduledTimers: set<FieldDesc> := {};
    for i := 0 to |fs|
      invariant FieldScan(fs[..i]) == Ok(FieldTables(fields, settingObjects, scheduledTimers))
    {
      var field := fs[i];
      assert fs[..i + 1][..i] == fs[..i];
      fields := fields[field.name := field];
      if field.isStatic {
        if field.kind == SettingObjectType {
          match field.staticValue
          case ReadsNull =>
            FieldScanErrStays(fs, i + 1);
            return Err(NullPointer);
          case AccessDenied =>
            FieldScanErrStays(fs, i + 1);
            return Err(IllegalAccess);
          case ReadsSetting(settingObject) =>
            settingObjects := settingObjects[settingObject.key := settingObject];
        }
      } else {
        if field.kind == TimerType {
          if !field.isStatic && field.scheduled {
            scheduledTimers := scheduledTimers + {field};
          }
        }
      }
    }
    assert fs[..|fs|] == fs;
    r := Ok(FieldTables(fields, settingObjects, scheduledTimers));
  }

  /** Once the scan of a prefix has failed, the scan of the whole list fails the same way. */
  lemma {:induction false} FieldScanErrStays(fs: seq<FieldDesc>, i: nat)
    requires i <= |fs| && FieldScan(fs[..i]).Err?
    ensures FieldScan(fs) == FieldScan(fs[..i])
    decreases |fs| - i
  {
    if i < |fs| {
      assert fs[..i + 1][..i] == fs[..i];
      FieldScanErrStays(fs, i + 1);
    } else {
      assert fs[..i] == fs;
    }
  }
}
