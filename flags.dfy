/** The capability flag word of a registration (`AbilityRegistration.Flag`). */
module Flags {

  /** A Java `int`, as its 32-bit two's-complement bit pattern. */
  type JavaInt = bv32

  const ActiveSkill: JavaInt := 0x1
  const TargetSkill: JavaInt := 0x2
  const Beta: JavaInt := 0x4

  /** `hasFlag(f)`: every bit set in `f` is set in `flag`. */
  function HasFlag(flag: JavaInt, f: JavaInt): (r: bool)
    ensures r <==> f & !flag == 0
  {
    flag & f == f
  }

  /** The flag word built from the three marks of a class. */
  function FlagWord(active: bool, target: bool, beta: bool): (r: JavaInt)
    ensures r & !(ActiveSkill | TargetSkill | Beta) == 0
    ensures r == 0 <==> !active && !target && !beta
  {
    (if active then ActiveSkill else 0) | (if target then TargetSkill else 0) | (if beta then Beta else 0)
  }

  /** Each defined flag is present exactly when its mark is, and no other bit is ever set. */
  lemma FlagWordBits(active: bool, target: bool, beta: bool)
    ensures HasFlag(FlagWord(active, target, beta), ActiveSkill) <==> active
    ensures HasFlag(FlagWord(active, target, beta), TargetSkill) <==> target
    ensures HasFlag(FlagWord(active, target, beta), Beta) <==> beta
    ensures FlagWord(active, target, beta) & !(ActiveSkill | TargetSkill | Beta) == 0
  {
  }

  /** `hasFlag` on a flag word holds exactly for the combinations of the present marks. */
  lemma HasFlagOfFlagWord(active: bool, target: bool, beta: bool, f: JavaInt)
    ensures HasFlag(FlagWord(active, target, beta), f) <==>
      && f & !(ActiveSkill | TargetSkill | Beta) == 0
      && (f & ActiveSkill != 0 ==> active)
      && (f & TargetSkill != 0 ==> target)
      && (f & Beta != 0 ==> beta)
  {
    // one case per combination of marks, so the solver sees a constant word
    var w := FlagWord(active, target, beta);
    if active && target && beta { assert w == 7; }
    else if active && target { assert w == 3; }
    else if active && beta { assert w == 5; }
    else if target && beta { assert w == 6; }
    else if active { assert w == 1; }
    else if target { assert w == 2; }
    else if beta { assert w == 4; }
    else { assert w == 0; }
  }

  /** `hasFlag(0)` is true of every flag word. */
  lemma HasFlagZero(flag: JavaInt)
    ensures HasFlag(flag, 0)
  {
  }
}
