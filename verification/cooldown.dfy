/** The rate limit on actions (`IntentContext.cooldown_ok`). The clock reading is a parameter. */
module Cooldown {

  /** `cooldown_ms` and `_last_action_ts` of the intent context (seconds of monotonic time). */
  datatype Gate = Gate(cooldownMs: int, lastActionTs: real)

  /** Whether `now` is at least the cooldown window past the last accepted action. */
  predicate WindowElapsed(g: Gate, now: real) {
    (now - g.lastActionTs) * 1000.0 >= g.cooldownMs as real
  }

  datatype Decision = Decision(allowed: bool, gate: Gate)

  /**
   * `cooldown_ok`: refuse, changing nothing, while less than `cooldown_ms`
   * has elapsed since the last accepted action; otherwise record `now` and
   * accept.
   */
  function CooldownOk(g: Gate, now: real): (d: Decision)
    ensures d.allowed <==> WindowElapsed(g, now)
    ensures !d.allowed ==> d.gate == g
    ensures d.allowed ==> d.gate.lastActionTs == now
    ensures d.gate.cooldownMs == g.cooldownMs
  {
    if (now - g.lastActionTs) * 1000.0 < g.cooldownMs as real then Decision(false, g)
    else Decision(true, g.(lastActionTs := now))
  }

  /** Two calls within the window of each other: the first is accepted, the second refused. */
  lemma CooldownBlocksRepeat(g: Gate, t1: real, t2: real)
    requires WindowElapsed(g, t1)
    requires (t2 - t1) * 1000.0 < g.cooldownMs as real
    ensures CooldownOk(g, t1).allowed
    ensures !CooldownOk(CooldownOk(g, t1).gate, t2).allowed
  {
  }

  /** The decisions taken for a sequence of clock readings, each against the state the previous ones left. */
  function Run(g: Gate, times: seq<real>): (r: seq<bool>)
    ensures |r| == |times|
    decreases |times|
  {
    if |times| == 0 then []
    else
      var d := CooldownOk(g, times[0]);
      [d.allowed] + Run(d.gate, times[1..])
  }

  /**
   * The rate-limit invariant: with a non-negative window, any two accepted
   * calls of a run are at least the window apart, and every accepted call is
   * at least the window past the state's last action.
   */
  lemma {:induction false} RunSpacing(g: Gate, times: seq<real>, i: nat, j: nat)
    requires g.cooldownMs >= 0
    requires i < j < |times|
    requires Run(g, times)[i] && Run(g, times)[j]
    ensures (times[j] - times[i]) * 1000.0 >= g.cooldownMs as real
    decreases |times|
  {
    var d := CooldownOk(g, times[0]);
    assert Run(g, times)[1..] == Run(d.gate, times[1..]);
    if i == 0 {
      assert d.gate.lastActionTs == times[0];
      RunAcceptedPastLast(d.gate, times[1..], j - 1);
    } else {
      RunSpacing(d.gate, times[1..], i - 1, j - 1);
    }
  }

  /** An accepted call of a run is at least the window past the state's last action. */
  lemma {:induction false} RunAcceptedPastLast(g: Gate, times: seq<real>, j: nat)
    requires g.cooldownMs >= 0
    requires j < |times|
    requires Run(g, times)[j]
    ensures (times[j] - g.lastActionTs) * 1000.0 >= g.cooldownMs as real
    decreases |times|
  {
    var d := CooldownOk(g, times[0]);
    assert Run(g, times)[1..] == Run(d.gate, times[1..]);
    if j > 0 {
      RunAcceptedPastLast(d.gate, times[1..], j - 1);
      if d.allowed {
        assert (times[0] - g.lastActionTs) * 1000.0 >= g.cooldownMs as real;
        assert (times[j] - times[0]) * 1000.0 >= g.cooldownMs as real;
      }
    }
  }
}
