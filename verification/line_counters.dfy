/**
 * The running line counters of a diff, stated once for both images. Each
 * line has an effect on a counter: it sets the counter to a new start (a
 * recognised hunk header), advances it by one (a line of that image), or
 * keeps it.
 */
module LineCounters {

  datatype Effect = SetTo(start: nat) | Advance | Keep

  /** The counter after one effect, given the counter before it. */
  function Apply(effect: Effect, before: nat): nat {
    match effect
    case SetTo(start) => start
    case Advance => before + 1
    case Keep => before
  }

  /** The counter after the given effects, from 0. */
  function CounterAfter(effects: seq<Effect>): nat {
    if |effects| == 0 then 0
    else Apply(effects[|effects| - 1], CounterAfter(effects[..|effects| - 1]))
  }

  lemma CounterAfterSnoc(effects: seq<Effect>, effect: Effect)
    ensures CounterAfter(effects + [effect]) == Apply(effect, CounterAfter(effects))
  {
    assert (effects + [effect])[..|effects|] == effects;
  }

  /** How many of the effects advance the counter. */
  function Advances(effects: seq<Effect>): nat {
    if |effects| == 0 then 0
    else Advances(effects[..|effects| - 1]) + (if effects[|effects| - 1] == Advance then 1 else 0)
  }

  /** After the last start that was set, the counter is that start plus the advances since. */
  lemma {:induction false} CounterSinceStart(effects: seq<Effect>, h: nat, i: nat, start: nat)
    requires h < i <= |effects|
    requires effects[h] == SetTo(start)
    requires forall j :: h < j < i ==> !effects[j].SetTo?
    ensures CounterAfter(effects[..i]) == start + Advances(effects[h + 1..i])
    decreases i
  {
    var p := effects[..i];
    assert p[..|p| - 1] == effects[..i - 1];
    if i > h + 1 {
      CounterSinceStart(effects, h, i - 1, start);
      var q := effects[h + 1..i];
      assert q[..|q| - 1] == effects[h + 1..i - 1];
    }
  }
}
