/**
 * The version gate at the start of the `AbilityRegistration` constructor:
 * while the current class carries `@Support` and the running server is not
 * over that version, move to its `@Alternative`, or fail with
 * `UnsupportedVersionException` when there is none.
 */
module VersionGate {
  import opened Base
  import opened Descriptors

  /** The loop stops at `c`: no `@Support`, or the server is over its version. */
  predicate Accepts(env: Env, c: ClassId) {
    var d := env.classes(c);
    d.support.None? || env.isOver(d.support.value)
  }

  /** How a bounded run of the gate ends. */
  datatype GateResult =
    | Canonical(cls: ClassId)     // the loop left with `clazz == cls`
    | Unsupported(at: ClassId)    // `UnsupportedVersionException` thrown at class `at`
    | OutOfFuel                   // more substitutions than the bound allows

  /** The class at which a finished run stopped. */
  function Ended(g: GateResult): (r: ClassId)
    requires !g.OutOfFuel?
  {
    if g.Canonical? then g.cls else g.at
  }

  /** The gate's loop from `c`, allowed at most `fuel` substitutions. */
  function GateWalk(env: Env, c: ClassId, fuel: nat): (r: GateResult)
    ensures r.Canonical? ==> Accepts(env, r.cls)
    ensures r.Unsupported? ==> !Accepts(env, r.at) && env.classes(r.at).alternative.None?
    decreases fuel
  {
    if Accepts(env, c) then Canonical(c)
    else match env.classes(c).alternative
      case None => Unsupported(c)
      case Some(a) => if fuel == 0 then OutOfFuel else GateWalk(env, a, fuel - 1)
  }

  /** The loop terminates from `c`: the substitution chain reaches a stop. */
  ghost predicate GateHalts(env: Env, c: ClassId) {
    exists fuel: nat :: GateWalk(env, c, fuel) != OutOfFuel
  }

  /** How the gate's loop, which has no bound, ends from `c`. */
  ghost function Gate(env: Env, c: ClassId): (r: GateResult)
    requires GateHalts(env, c)
    ensures r != OutOfFuel
    ensures r.Canonical? ==> Accepts(env, r.cls)
    ensures r.Unsupported? ==> !Accepts(env, r.at) && env.classes(r.at).alternative.None?
  {
    var fuel: nat :| GateWalk(env, c, fuel) != OutOfFuel;
    GateWalk(env, c, fuel)
  }

  /** More fuel does not change a finished run. */
  lemma {:induction false} GateWalkStable(env: Env, c: ClassId, n: nat, m: nat)
    requires n <= m
    requires GateWalk(env, c, n) != OutOfFuel
    ensures GateWalk(env, c, m) == GateWalk(env, c, n)
    decreases n
  {
    if !Accepts(env, c) && env.classes(c).alternative.Some? {
      GateWalkStable(env, env.classes(c).alternative.value, n - 1, m - 1);
    }
  }

  /** Every finished bounded run agrees with the unbounded gate. */
  lemma GateAgrees(env: Env, c: ClassId, fuel: nat)
    requires GateWalk(env, c, fuel) != OutOfFuel
    ensures GateHalts(env, c) && Gate(env, c) == GateWalk(env, c, fuel)
  {
    var other: nat :| GateWalk(env, c, other) != OutOfFuel && Gate(env, c) == GateWalk(env, c, other);
    if fuel <= other {
      GateWalkStable(env, c, fuel, other);
    } else {
      GateWalkStable(env, c, other, fuel);
    }
  }

  /** One iteration of the loop: an unsatisfied class with an alternative hands over to it. */
  lemma GateSubstitutes(env: Env, c: ClassId)
    requires GateHalts(env, c)
    requires !Accepts(env, c) && env.classes(c).alternative.Some?
    ensures GateHalts(env, env.classes(c).alternative.value)
    ensures Gate(env, env.classes(c).alternative.value) == Gate(env, c)
  {
    var fuel: nat :| GateWalk(env, c, fuel) != OutOfFuel;
    GateAgrees(env, c, fuel);
    GateAgrees(env, env.classes(c).alternative.value, fuel - 1);
  }

  /** The class the gate settles on passes the gate unchanged. */
  lemma GateCanonicalIsFixed(env: Env, c: ClassId)
    requires GateHalts(env, c) && Gate(env, c).Canonical?
    ensures GateHalts(env, Gate(env, c).cls)
    ensures Gate(env, Gate(env, c).cls) == Gate(env, c)
  {
    GateAgrees(env, Gate(env, c).cls, 0);
  }

  /**
   * A substitution chain: every class but the last is unsatisfied and names
   * the next one as its `@Alternative`.
   */
  ghost predicate SubstitutionChain(env: Env, p: seq<ClassId>) {
    && |p| >= 1
    && forall i :: 0 <= i < |p| - 1 ==> !Accepts(env, p[i]) && env.classes(p[i]).alternative == Some(p[i + 1])
  }

  /**
   * A finished run walks a substitution chain from `c` and stops at its last
   * class, which is the first class on the chain that is satisfied or has no
   * alternative.
   */
  lemma {:induction false} GateWalkFollowsChain(env: Env, c: ClassId, fuel: nat)
    requires GateWalk(env, c, fuel) != OutOfFuel
    ensures exists p :: SubstitutionChain(env, p) && p[0] == c && p[|p| - 1] == Ended(GateWalk(env, c, fuel)) && |p| <= fuel + 1
    decreases fuel
  {
    if Accepts(env, c) || env.classes(c).alternative.None? {
      assert SubstitutionChain(env, [c]);
    } else {
      var a := env.classes(c).alternative.value;
      GateWalkFollowsChain(env, a, fuel - 1);
      var p :| SubstitutionChain(env, p) && p[0] == a && p[|p| - 1] == Ended(GateWalk(env, a, fuel - 1)) && |p| <= fuel;
      var q := [c] + p;
      forall i | 0 <= i < |q| - 1
        ensures !Accepts(env, q[i]) && env.classes(q[i]).alternative == Some(q[i + 1])
      {
        if i > 0 {
          assert q[i] == p[i - 1] && q[i + 1] == p[i];
        }
      }
      assert SubstitutionChain(env, q);
    }
  }

  /** The outcome of the gate as the constructor sees it. */
  function GateOutcome(g: GateResult): (r: Result<ClassId>)
  {
    if g.Canonical? then Ok(g.cls) else Err(UnsupportedVersion)
  }

  /** The `while` loop of the constructor (AbilityFactory.java:198-209). */
  method ResolveVersion(env: Env, requested: ClassId) returns (r: Result<ClassId>)
    requires GateHalts(env, requested)
    ensures r == GateOutcome(Gate(env, requested))
    ensures r.Ok? ==> Accepts(env, r.value)
  {
    ghost var fuel: nat :| GateWalk(env, requested, fuel) != OutOfFuel;
    GateAgrees(env, requested, fuel);
    var clazz := requested;
    while env.classes(clazz).support.Some?
      invariant GateWalk(env, clazz, fuel) == Gate(env, requested)
      decreases fuel
    {
      var supported := env.classes(clazz).support.value;
      if env.isOver(supported) {
        break;
      } else if env.classes(clazz).alternative.Some? {
        clazz := env.classes(clazz).alternative.value;
        fuel := fuel - 1;
      } else {
        return Err(UnsupportedVersion);
      }
    }
    r := Ok(clazz);
  }
}
