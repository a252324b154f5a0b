/**
 * The listening loop of the assistant, one final transcription at a time:
 * the optional wake-word gate, the call into `match_intent`, and the filter
 * that decides which outcomes are reported to the user.
 */
module Listener {
  import opened Options
  import opened Text
  import opened Score
  import opened Intents

  /** Seconds after the wake word during which commands are accepted. */
  const WakeWindow: real := 6.0

  /** The wake word (already normalised when loaded) and whether it is required. */
  datatype ListenConfig = ListenConfig(wakeWord: string, requireWakeWord: bool)

  /** `listening_armed` and `last_wake_ts`. */
  datatype WakeState = WakeState(armed: bool, lastWakeTs: real)

  /** Before the first transcription: armed exactly when no wake word is required. */
  function InitState(cfg: ListenConfig): (s: WakeState)
    ensures s.armed <==> !cfg.requireWakeWord
    ensures s.lastWakeTs == 0.0
  {
    WakeState(!cfg.requireWakeWord, 0.0)
  }

  /** The wake word is one of the tokens of `norm`, or a suffix of it. */
  predicate Wakes(wakeWord: string, norm: string) {
    wakeWord in Words(norm) || EndsWith(norm, wakeWord)
  }

  /** What the gate does with one transcription: the text to dispatch, if any, and the next state. */
  datatype Gated = Gated(dispatch: Option<string>, state: WakeState)

  /**
   * The gate for one final transcription heard at `now`: blank text is
   * ignored; without a required wake word everything else is dispatched;
   * otherwise a disarmed gate only listens for the wake word, and an armed
   * gate dispatches until a transcription arrives more than `WakeWindow`
   * seconds after arming, which disarms it and is dropped.
   */
  function WakeStep(cfg: ListenConfig, st: WakeState, transcript: string, now: real): (g: Gated)
    ensures g.dispatch.Some? ==> g.dispatch.value == Strip(transcript) && g.dispatch.value != ""
    ensures g.dispatch.Some? <==>
              Strip(transcript) != "" && (!cfg.requireWakeWord || (st.armed && now - st.lastWakeTs <= WakeWindow))
    ensures !cfg.requireWakeWord ==> g.state == st
    ensures g.state.lastWakeTs != st.lastWakeTs || (g.state.armed && !st.armed) ==>
              && cfg.requireWakeWord && !st.armed
              && Wakes(cfg.wakeWord, Normalize(Strip(transcript)))
              && g.state == WakeState(true, now)
    ensures cfg.requireWakeWord && !st.armed && Strip(transcript) != "" && Wakes(cfg.wakeWord, Normalize(Strip(transcript))) ==>
              g.state == WakeState(true, now)
    ensures st.armed && !g.state.armed ==>
              cfg.requireWakeWord && now - st.lastWakeTs > WakeWindow && g.state.lastWakeTs == st.lastWakeTs
    ensures Strip(transcript) == "" ==> g == Gated(None, st)
    ensures cfg.requireWakeWord && !st.armed && !Wakes(cfg.wakeWord, Normalize(Strip(transcript))) ==>
              g == Gated(None, st)
    ensures cfg.requireWakeWord && st.armed && Strip(transcript) != "" && now - st.lastWakeTs > WakeWindow ==>
              g == Gated(None, st.(armed := false))
  {
    var text := Strip(transcript);
    if text == "" then Gated(None, st)
    else if !cfg.requireWakeWord then Gated(Some(text), st)
    else if !st.armed then
      if Wakes(cfg.wakeWord, Normalize(text)) then Gated(None, WakeState(true, now)) else Gated(None, st)
    else if now - st.lastWakeTs > WakeWindow then Gated(None, st.(armed := false))
    else Gated(Some(text), st)
  }

  /** One pass of the loop: the report shown to the user, the gate and the intent context afterwards. */
  datatype Heard = Heard(report: Option<Outcome>, state: WakeState, ctx: Context)

  /**
   * The loop body for one final transcription: gate it, hand a dispatched
   * text to `match_intent`, and report any outcome except a cooldown skip.
   */
  function ListenStep(cfg: ListenConfig, ratio: Ratio, st: WakeState, ctx: Context, transcript: string, now: real): (h: Heard)
    ensures h.state == WakeStep(cfg, st, transcript, now).state
    ensures WakeStep(cfg, st, transcript, now).dispatch.None? ==> h.report.None? && h.ctx == ctx
    ensures h.report.Some? ==> h.report.value != CooldownSkipped
    ensures var g := WakeStep(cfg, st, transcript, now);
            g.dispatch.Some? ==>
              var r := MatchIntent(ratio, g.dispatch.value, ctx, now);
              h.ctx == r.ctx && (h.report.Some? <==> r.outcome.Some? && r.outcome.value != CooldownSkipped)
              && (h.report.Some? ==> h.report == r.outcome)
  {
    var g := WakeStep(cfg, st, transcript, now);
    match g.dispatch
    case None => Heard(None, g.state, ctx)
    case Some(text) =>
      var r := MatchIntent(ratio, text, ctx, now);
      var shown := if r.outcome.Some? && r.outcome.value != CooldownSkipped then r.outcome else None;
      Heard(shown, g.state, r.ctx)
  }

  /** A final transcription and the time it was heard. */
  datatype Utterance = Utterance(transcript: string, at: real)

  /** The gate state after the first `k` utterances of a session. */
  function StateBefore(cfg: ListenConfig, us: seq<Utterance>, k: nat): WakeState
    requires k <= |us|
  {
    if k == 0 then InitState(cfg)
    else WakeStep(cfg, StateBefore(cfg, us, k - 1), us[k - 1].transcript, us[k - 1].at).state
  }

  /** Utterance `i` armed the gate. */
  predicate ArmedBy(cfg: ListenConfig, us: seq<Utterance>, i: nat)
    requires i < |us|
  {
    && !StateBefore(cfg, us, i).armed
    && Strip(us[i].transcript) != ""
    && Wakes(cfg.wakeWord, Normalize(Strip(us[i].transcript)))
  }

  /** Without a required wake word the gate never changes state. */
  lemma {:induction false} NoWakeWordStaysArmed(cfg: ListenConfig, us: seq<Utterance>, k: nat)
    requires !cfg.requireWakeWord
    requires k <= |us|
    ensures StateBefore(cfg, us, k) == InitState(cfg)
  {
    if k > 0 {
      NoWakeWordStaysArmed(cfg, us, k - 1);
      UngatedStep(cfg, StateBefore(cfg, us, k - 1), us[k - 1].transcript, us[k - 1].at);
    }
  }

  lemma UngatedStep(cfg: ListenConfig, st: WakeState, transcript: string, now: real)
    requires !cfg.requireWakeWord
    ensures WakeStep(cfg, st, transcript, now).state == st
  {
  }

  /** Without a required wake word every non-blank transcription reaches `match_intent`. */
  lemma NoWakeWordDispatchesAll(cfg: ListenConfig, us: seq<Utterance>, k: nat)
    requires !cfg.requireWakeWord
    requires k < |us|
    ensures var g := WakeStep(cfg, StateBefore(cfg, us, k), us[k].transcript, us[k].at);
            g.dispatch == if Strip(us[k].transcript) == "" then None else Some(Strip(us[k].transcript))
  {
    NoWakeWordStaysArmed(cfg, us, k);
  }

  /**
   * With a required wake word, an armed gate was armed by an earlier
   * utterance containing the wake word, whose time is the gate's
   * `lastWakeTs`: dispatched commands never move the window.
   */
  lemma {:induction false} ArmedSinceWake(cfg: ListenConfig, us: seq<Utterance>, k: nat)
    requires cfg.requireWakeWord
    requires k <= |us|
    requires StateBefore(cfg, us, k).armed
    ensures exists i | 0 <= i < k :: ArmedBy(cfg, us, i) && StateBefore(cfg, us, k).lastWakeTs == us[i].at
  {
    ArmedStep(cfg, us, k);
    if k > 0 && !ArmedBy(cfg, us, k - 1) {
      ArmedSinceWake(cfg, us, k - 1);
    }
  }

  /** The last step before an armed gate kept it armed with its timestamp, or armed it. */
  lemma ArmedStep(cfg: ListenConfig, us: seq<Utterance>, k: nat)
    requires cfg.requireWakeWord
    requires k <= |us|
    requires StateBefore(cfg, us, k).armed
    ensures k > 0
    ensures || (StateBefore(cfg, us, k - 1).armed && StateBefore(cfg, us, k).lastWakeTs == StateBefore(cfg, us, k - 1).lastWakeTs)
            || (ArmedBy(cfg, us, k - 1) && StateBefore(cfg, us, k).lastWakeTs == us[k - 1].at)
  {
    var u := us[k - 1];
    GateStep(cfg, StateBefore(cfg, us, k - 1), u.transcript, u.at);
  }

  /** A step that leaves the gate armed: it stayed armed with the same time, or it was just armed. */
  lemma GateStep(cfg: ListenConfig, st: WakeState, transcript: string, now: real)
    requires cfg.requireWakeWord
    requires WakeStep(cfg, st, transcript, now).state.armed
    ensures var g := WakeStep(cfg, st, transcript, now);
            || (st.armed && g.state.lastWakeTs == st.lastWakeTs)
            || (!st.armed && Strip(transcript) != "" && Wakes(cfg.wakeWord, Normalize(Strip(transcript)))
                && g.state.lastWakeTs == now)
  {
  }

  /**
   * With a required wake word, every dispatched transcription follows an
   * earlier one containing the wake word by at most `WakeWindow` seconds.
   */
  lemma DispatchFollowsWake(cfg: ListenConfig, us: seq<Utterance>, k: nat)
    requires cfg.requireWakeWord
    requires k < |us|
    requires WakeStep(cfg, StateBefore(cfg, us, k), us[k].transcript, us[k].at).dispatch.Some?
    ensures exists i | 0 <= i < k :: ArmedBy(cfg, us, i) && us[k].at - us[i].at <= WakeWindow
  {
    ArmedSinceWake(cfg, us, k);
    var i :| 0 <= i < k && ArmedBy(cfg, us, i) && StateBefore(cfg, us, k).lastWakeTs == us[i].at;
  }

  /** The utterance that arms the gate is not itself dispatched. */
  lemma ArmingNotDispatched(cfg: ListenConfig, us: seq<Utterance>, i: nat)
    requires cfg.requireWakeWord
    requires i < |us|
    requires ArmedBy(cfg, us, i)
    ensures var g := WakeStep(cfg, StateBefore(cfg, us, i), us[i].transcript, us[i].at);
            g.dispatch.None? && g.state == WakeState(true, us[i].at)
  {
  }
}
