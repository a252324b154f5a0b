/**
 * `match_intent`: turn one recognised utterance into at most one outcome —
 * launch an application, delete an aliased path, or show the help line —
 * debounced by the context's cooldown.
 */
module Intents {
  import opened Options
  import opened Assoc
  import opened Text
  import opened Score
  import opened Resolve
  import opened Cooldown

  /** Verbs that open an application, French and English. */
  const OpenVerbs: seq<string> := ["ouvre", "lance", "demarre", "open", "launch", "start", "run"]

  /** Verbs that delete an aliased path. */
  const DeleteVerbs: seq<string> := ["supprime", "efface", "delete"]

  /** Utterances that ask for the help line. */
  const HelpWords: set<string> := {"aide", "help"}

  /** The state `match_intent` reads and updates (`IntentContext`). */
  datatype Context = Context(apps: AssocList, deleteBaseDir: string, deleteAliases: AssocList, gate: Gate)

  /**
   * What an utterance leads to. The side effects themselves (running the
   * command, deleting the path) belong to the action layer; `Launch` and
   * `Delete` name the request handed to it.
   */
  datatype Outcome =
    | Launch(app: ResolvedApp)
    | UnknownApp(spoken: string)
    | Delete(target: string, baseDir: string)
    | UnknownAlias(alias: string)
    | CooldownSkipped
    | Help

  /** The answer to an utterance (`None` when nothing matched) and the updated context. */
  datatype Reply = Reply(outcome: Option<Outcome>, ctx: Context)

  /**
   * `^(?:v1|v2|...)\s+(?P<rest>.+)$` on normalised text: the first verb,
   * in list order, followed by a space and a non-empty remainder.
   */
  function VerbRemainder(text: string, verbs: seq<string>): (r: Option<string>)
    ensures r.Some? ==> r.value != "" && exists i | 0 <= i < |verbs| :: text == verbs[i] + " " + r.value
    decreases |verbs|
  {
    if |verbs| == 0 then None
    else
      var v := verbs[0];
      if |text| > |v| + 1 && text[..|v| + 1] == v + " " then
        assert text == verbs[0] + " " + text[|v| + 1..];
        Some(text[|v| + 1..])
      else VerbRemainder(text, verbs[1..])
  }

  /** The tokens `ws` are a verb from `verbs` followed by at least one more token. */
  predicate IsCommand(ws: seq<string>, verbs: seq<string>) {
    |ws| >= 2 && ws[0] in verbs
  }

  /** The words after the verb, joined again. */
  function Argument(ws: seq<string>): string
    requires |ws| >= 2
  {
    JoinSpace(ws[1..])
  }

  /** `v`, a space and the rest: the first token is `v`, the others are the rest's. */
  lemma VerbPrefixWords(text: string, v: string)
    requires IsNormalized(text)
    requires IsWord(v)
    requires |text| > |v| + 1 && text[..|v| + 1] == v + " "
    ensures |Words(text)| >= 2 && Words(text)[0] == v
    ensures text[|v| + 1..] == Argument(Words(text))
  {
    var rest := text[|v| + 1..];
    assert text[..|v|] == v && text[|v|] == ' ' by {
      assert text[..|v| + 1][..|v|] == text[..|v|];
    }
    SplitAround(text, |v|);
    WordsCons(v, ' ', rest);
    NormalizedAfterSpace(text, |v| + 1);
    JoinSplit(rest);
    assert Words(text)[1..] == Words(rest);
  }

  /** At least two tokens, the first `v`: the text starts with `v` and a space. */
  lemma WordsVerbPrefix(text: string, v: string)
    requires IsNormalized(text)
    requires |Words(text)| >= 2 && Words(text)[0] == v
    ensures |text| > |v| + 1 && text[..|v| + 1] == v + " "
  {
    var ws := Words(text);
    JoinSplit(text);
    JoinWordsNormalized(ws[1..]);
    assert text == v + " " + JoinSpace(ws[1..]);
  }

  /** On normalised text, "starts with `v` and a space" means "the first of at least two tokens is `v`". */
  lemma VerbPrefix(text: string, v: string)
    requires IsNormalized(text)
    requires IsWord(v)
    ensures (|text| > |v| + 1 && text[..|v| + 1] == v + " ") <==> (|Words(text)| >= 2 && Words(text)[0] == v)
    ensures |text| > |v| + 1 && text[..|v| + 1] == v + " " ==> text[|v| + 1..] == Argument(Words(text))
  {
    if |text| > |v| + 1 && text[..|v| + 1] == v + " " {
      VerbPrefixWords(text, v);
    }
    if |Words(text)| >= 2 && Words(text)[0] == v {
      WordsVerbPrefix(text, v);
    }
  }

  /** The verb patterns, stated on tokens: a verb first, then a non-empty argument. */
  lemma {:induction false} VerbRemainderWords(text: string, verbs: seq<string>)
    requires IsNormalized(text)
    requires AllWords(verbs)
    ensures VerbRemainder(text, verbs) ==
              if IsCommand(Words(text), verbs) then Some(Argument(Words(text))) else None
    decreases |verbs|
  {
    if |verbs| > 0 {
      VerbPrefix(text, verbs[0]);
      VerbRemainderWords(text, verbs[1..]);
      assert forall w :: w in verbs <==> w == verbs[0] || w in verbs[1..];
    }
  }

  /**
   * `match_intent`: normalise; an open command resolves its application
   * and, if one is found and the cooldown allows, launches it; otherwise a
   * delete command looks up its alias the same way; otherwise "aide" or
   * "help" gets the help line. The cooldown is consulted only once a
   * target is known, so an unknown name never delays the next command.
   */
  function MatchIntent(ratio: Ratio, raw: string, ctx: Context, now: real): (r: Reply)
    ensures Normalize(raw) == "" ==> r == Reply(None, ctx)
    ensures r.ctx == ctx.(gate := r.ctx.gate)
    ensures r.ctx.gate != ctx.gate ==>
              && r.outcome.Some? && (r.outcome.value.Launch? || r.outcome.value.Delete?)
              && WindowElapsed(ctx.gate, now)
              && r.ctx.gate == ctx.gate.(lastActionTs := now)
    ensures r.outcome.Some? && (r.outcome.value.Launch? || r.outcome.value.Delete?) ==>
              WindowElapsed(ctx.gate, now) && r.ctx.gate == ctx.gate.(lastActionTs := now)
    ensures r.outcome == Some(CooldownSkipped) ==> !WindowElapsed(ctx.gate, now)
    ensures r.outcome.Some? && r.outcome.value.Launch? ==>
              (r.outcome.value.app.name, r.outcome.value.app.command) in ctx.apps
    ensures r.outcome.Some? && r.outcome.value.Delete? ==>
              && r.outcome.value.target != ""
              && r.outcome.value.baseDir == ctx.deleteBaseDir
              && exists j | 0 <= j < |ctx.deleteAliases| :: ctx.deleteAliases[j].1 == r.outcome.value.target
    ensures r.outcome == Some(Help) ==> Normalize(raw) in HelpWords
  {
    MatchText(ratio, Normalize(raw), ctx, now)
  }

  /** The part of `match_intent` after normalisation, on the normalised text. */
  function MatchText(ratio: Ratio, text: string, ctx: Context, now: real): (r: Reply)
    ensures text == "" ==> r == Reply(None, ctx)
    ensures r.ctx == ctx.(gate := r.ctx.gate)
    ensures r.ctx.gate != ctx.gate ==>
              && r.outcome.Some? && (r.outcome.value.Launch? || r.outcome.value.Delete?)
              && WindowElapsed(ctx.gate, now)
              && r.ctx.gate == ctx.gate.(lastActionTs := now)
    ensures r.outcome.Some? && (r.outcome.value.Launch? || r.outcome.value.Delete?) ==>
              WindowElapsed(ctx.gate, now) && r.ctx.gate == ctx.gate.(lastActionTs := now)
    ensures r.outcome == Some(CooldownSkipped) ==> !WindowElapsed(ctx.gate, now)
    ensures r.outcome.Some? && r.outcome.value.Launch? ==>
              (r.outcome.value.app.name, r.outcome.value.app.command) in ctx.apps
    ensures r.outcome.Some? && r.outcome.value.Delete? ==>
              && r.outcome.value.target != ""
              && r.outcome.value.baseDir == ctx.deleteBaseDir
              && exists j | 0 <= j < |ctx.deleteAliases| :: ctx.deleteAliases[j].1 == r.outcome.value.target
    ensures r.outcome == Some(Help) ==> text in HelpWords
  {
    if text == "" then Reply(None, ctx)
    else
      match VerbRemainder(text, OpenVerbs)
      case Some(appSpoken) =>
        (match ResolveApp(ratio, appSpoken, ctx.apps)
         case None => Reply(Some(UnknownApp(appSpoken)), ctx)
         case Some(app) =>
           var d := CooldownOk(ctx.gate, now);
           if !d.allowed then Reply(Some(CooldownSkipped), ctx)
           else Reply(Some(Launch(app)), ctx.(gate := d.gate)))
      case None =>
        match VerbRemainder(text, DeleteVerbs)
        case Some(alias) =>
          var target := ResolveDeleteAlias(alias, ctx.deleteAliases);
          if target.None? || target.value == "" then Reply(Some(UnknownAlias(alias)), ctx)
          else
            var d := CooldownOk(ctx.gate, now);
            if !d.allowed then Reply(Some(CooldownSkipped), ctx)
            else Reply(Some(Delete(target.value, ctx.deleteBaseDir)), ctx.(gate := d.gate))
        case None =>
          if text in HelpWords then Reply(Some(Help), ctx) else Reply(None, ctx)
  }

  lemma OpenVerbsWords()
    ensures AllWords(OpenVerbs) && AllWords(DeleteVerbs)
  {
    assert forall i | 0 <= i < |OpenVerbs| :: IsWord(OpenVerbs[i]);
    assert forall i | 0 <= i < |DeleteVerbs| :: IsWord(DeleteVerbs[i]);
  }

  /** The outcome of an open command, in terms of its tokens and of `_resolve_app`. */
  lemma MatchIntentOpen(ratio: Ratio, raw: string, ctx: Context, now: real)
    requires IsCommand(Words(Normalize(raw)), OpenVerbs)
    ensures var arg := Argument(Words(Normalize(raw)));
            var r := MatchIntent(ratio, raw, ctx, now);
            match ResolveApp(ratio, arg, ctx.apps)
            case None => r == Reply(Some(UnknownApp(arg)), ctx)
            case Some(app) =>
              if WindowElapsed(ctx.gate, now) then r == Reply(Some(Launch(app)), ctx.(gate := ctx.gate.(lastActionTs := now)))
              else r == Reply(Some(CooldownSkipped), ctx)
  {
    MatchTextOpen(ratio, Normalize(raw), ctx, now);
  }

  lemma MatchTextOpen(ratio: Ratio, text: string, ctx: Context, now: real)
    requires IsNormalized(text)
    requires IsCommand(Words(text), OpenVerbs)
    ensures var arg := Argument(Words(text));
            var r := MatchText(ratio, text, ctx, now);
            match ResolveApp(ratio, arg, ctx.apps)
            case None => r == Reply(Some(UnknownApp(arg)), ctx)
            case Some(app) =>
              if WindowElapsed(ctx.gate, now) then r == Reply(Some(Launch(app)), ctx.(gate := ctx.gate.(lastActionTs := now)))
              else r == Reply(Some(CooldownSkipped), ctx)
  {
    OpenVerbsWords();
    VerbRemainderWords(text, OpenVerbs);
  }

  /** The outcome of a delete command, in terms of its tokens and of `_resolve_delete_alias`. */
  lemma MatchIntentDelete(ratio: Ratio, raw: string, ctx: Context, now: real)
    requires IsCommand(Words(Normalize(raw)), DeleteVerbs)
    ensures var arg := Argument(Words(Normalize(raw)));
            var r := MatchIntent(ratio, raw, ctx, now);
            match ResolveDeleteAlias(arg, ctx.deleteAliases)
            case None => r == Reply(Some(UnknownAlias(arg)), ctx)
            case Some(target) =>
              if target == "" then r == Reply(Some(UnknownAlias(arg)), ctx)
              else if WindowElapsed(ctx.gate, now) then
                r == Reply(Some(Delete(target, ctx.deleteBaseDir)), ctx.(gate := ctx.gate.(lastActionTs := now)))
              else r == Reply(Some(CooldownSkipped), ctx)
  {
    var text := Normalize(raw);
    var ws := Words(text);
    OpenVerbsWords();
    VerbsDisjoint(ws[0]);
    VerbRemainderWords(text, OpenVerbs);
    VerbRemainderWords(text, DeleteVerbs);
    assert VerbRemainder(text, OpenVerbs) == None;
    assert VerbRemainder(text, DeleteVerbs) == Some(Argument(ws));
  }

  /** No word is both an open verb and a delete verb. */
  lemma VerbsDisjoint(w: string)
    ensures !(w in OpenVerbs && w in DeleteVerbs)
  {
  }

  /**
   * An utterance gets no answer exactly when it is empty after
   * normalisation, or is neither a command nor a help word.
   */
  lemma MatchIntentSilent(ratio: Ratio, raw: string, ctx: Context, now: real)
    ensures var ws := Words(Normalize(raw));
            MatchIntent(ratio, raw, ctx, now).outcome.None? <==>
              !IsCommand(ws, OpenVerbs) && !IsCommand(ws, DeleteVerbs) && Normalize(raw) !in HelpWords
  {
    var text := Normalize(raw);
    OpenVerbsWords();
    VerbRemainderWords(text, OpenVerbs);
    VerbRemainderWords(text, DeleteVerbs);
    JoinSplit(text);
    var r := MatchIntent(ratio, raw, ctx, now);
    if IsCommand(Words(text), OpenVerbs) {
      MatchIntentOpen(ratio, raw, ctx, now);
    } else if IsCommand(Words(text), DeleteVerbs) {
      MatchIntentDelete(ratio, raw, ctx, now);
    } else {
      assert VerbRemainder(text, OpenVerbs) == None;
      assert VerbRemainder(text, DeleteVerbs) == None;
    }
  }

  /** "aide" and "help" always get the help line and leave the context alone. */
  lemma MatchIntentHelp(ratio: Ratio, raw: string, ctx: Context, now: real)
    requires Normalize(raw) in HelpWords
    ensures MatchIntent(ratio, raw, ctx, now) == Reply(Some(Help), ctx)
  {
    HelpNotCommand(Normalize(raw));
  }

  /** Neither help word matches a verb pattern. */
  lemma HelpNotCommand(text: string)
    requires text in HelpWords
    ensures VerbRemainder(text, OpenVerbs) == None && VerbRemainder(text, DeleteVerbs) == None
  {
    assert |text| == 4;
    TooShortForVerb(text, OpenVerbs);
    TooShortForVerb(text, DeleteVerbs);
  }

  /** A text no longer than a verb plus its space matches no verb pattern. */
  lemma {:induction false} TooShortForVerb(text: string, verbs: seq<string>)
    requires forall i | 0 <= i < |verbs| :: |text| <= |verbs[i]| + 1
    ensures VerbRemainder(text, verbs) == None
    decreases |verbs|
  {
    if |verbs| > 0 {
      TooShortForVerb(text, verbs[1..]);
    }
  }

  /** Normalising the utterance first changes nothing. */
  lemma MatchIntentNormalized(ratio: Ratio, raw: string, ctx: Context, now: real)
    ensures MatchIntent(ratio, Normalize(raw), ctx, now) == MatchIntent(ratio, raw, ctx, now)
  {
    NormalizeIdempotent(raw);
  }

  /**
   * Debouncing: after an action at `t1`, no utterance at `t2` within the
   * cooldown window performs another one.
   */
  lemma MatchIntentDebounces(ratio: Ratio, raw1: string, raw2: string, ctx: Context, t1: real, t2: real)
    requires var o := MatchIntent(ratio, raw1, ctx, t1).outcome;
             o.Some? && (o.value.Launch? || o.value.Delete?)
    requires (t2 - t1) * 1000.0 < ctx.gate.cooldownMs as real
    ensures var o := MatchIntent(ratio, raw2, MatchIntent(ratio, raw1, ctx, t1).ctx, t2).outcome;
            !(o.Some? && (o.value.Launch? || o.value.Delete?))
  {
  }
}
