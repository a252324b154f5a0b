/**
 * Tiered application resolution (`_resolve_app`) and delete-alias resolution
 * (`_resolve_delete_alias`).
 */
module Resolve {
  import opened Options
  import opened Assoc
  import opened Text
  import opened Fillers
  import opened Score

  /** `ResolvedApp`: the catalogue key matched, its command, the score and whether the match was exact. */
  datatype ResolvedApp = ResolvedApp(name: string, command: string, score: real, exact: bool)

  /** Score of an exact catalogue hit. */
  const ExactScore: real := 1.0
  /** Score of a containment hit. */
  const ContainmentScore: real := 0.90
  /** Short spoken keys need a fuzzy score at least this high. */
  const ShortPhraseThreshold: real := 0.90
  /** No fuzzy match below this score is accepted. */
  const MatchThreshold: real := 0.72

  /** `key_clean or key`: the phrase length the reject rules look at. */
  function SpokenLength(key: string): nat {
    var clean := StripFillers(key);
    if clean != "" then |clean| else |key|
  }

  /** The acceptance rule every resolved application obeys. */
  predicate Acceptable(score: real, spokenLength: nat) {
    score >= MatchThreshold && (spokenLength >= MinConfidentLength || score >= ShortPhraseThreshold)
  }

  /** The spoken candidates: the normalised phrase, then its filler-stripped form when that differs and is not empty. */
  function Candidates(key: string): (cs: seq<string>)
    ensures 1 <= |cs| <= 2 && cs[0] == key
    ensures |cs| == 2 ==> cs[1] == StripFillers(key) && cs[1] != key && cs[1] != ""
  {
    var clean := StripFillers(key);
    if clean != "" && clean != key then [key, clean] else [key]
  }

  /** Exact tier: the first candidate that is itself a catalogue key, score 1.0. */
  function ExactTier(cands: seq<string>, key: string, apps: AssocList): (r: Option<ResolvedApp>)
    ensures r.None? <==> forall i | 0 <= i < |cands| :: cands[i] !in Keys(apps)
    ensures r.Some? ==> r.value.name in cands && Lookup(apps, r.value.name) == Some(r.value.command)
    ensures r.Some? ==> r.value.score == ExactScore && (r.value.exact <==> r.value.name == key)
    ensures |cands| > 0 && cands[0] in Keys(apps) ==> r.Some? && r.value.name == cands[0]
  {
    if |cands| == 0 then None
    else
      match Lookup(apps, cands[0])
      case Some(cmd) => Some(ResolvedApp(cands[0], cmd, ExactScore, cands[0] == key))
      case None =>
        var r := ExactTier(cands[1..], key, apps);
        assert forall i | 1 <= i < |cands| :: cands[i] == cands[1..][i - 1];
        r
  }

  /** The containment test of `_resolve_app`: equal, or a long enough candidate in a substring relation with the key. */
  predicate ContainHit(cand: string, name: string) {
    cand == name || (|cand| >= MinConfidentLength && SubstringEither(cand, name))
  }

  /**
   * Containment tier: candidates in order, and for each the catalogue in
   * insertion order; the first hit wins with score 0.90.
   */
  function ContainTier(cands: seq<string>, apps: AssocList): (r: Option<ResolvedApp>)
    ensures r.None? <==> forall i, j | 0 <= i < |cands| && 0 <= j < |apps| :: !ContainHit(cands[i], apps[j].0)
    ensures r.Some? ==> (r.value.name, r.value.command) in apps
    ensures r.Some? ==> r.value.score == ContainmentScore && !r.value.exact
  {
    if |cands| == 0 then None
    else
      match FirstKeyWhere(apps, name => ContainHit(cands[0], name))
      case Some(j) =>
        assert apps[j] in apps;
        Some(ResolvedApp(apps[j].0, apps[j].1, ContainmentScore, false))
      case None =>
        var r := ContainTier(cands[1..], apps);
        assert forall i | 1 <= i < |cands| :: cands[i] == cands[1..][i - 1];
        r
  }

  /** One fuzzy-tier row: every catalogue entry scored against one candidate, in insertion order. */
  function ScoreRow(ratio: Ratio, cand: string, apps: AssocList): (row: seq<ResolvedApp>)
    ensures |row| == |apps|
    ensures forall j | 0 <= j < |apps| ::
              row[j] == ResolvedApp(apps[j].0, apps[j].1, AppMatchScore(ratio, cand, apps[j].0), false)
  {
    seq(|apps|, j requires 0 <= j < |apps| =>
      ResolvedApp(apps[j].0, apps[j].1, AppMatchScore(ratio, cand, apps[j].0), false))
  }

  /** The fuzzy tier's scoring order: candidate by candidate, each over the whole catalogue. */
  function Scored(ratio: Ratio, cands: seq<string>, apps: AssocList): (xs: seq<ResolvedApp>)
    ensures |xs| == 0 <==> |cands| == 0 || |apps| == 0
    ensures forall x | x in xs :: (x.name, x.command) in apps && !x.exact
    ensures RatioBounded(ratio) ==> forall x | x in xs :: 0.0 <= x.score <= 1.0
  {
    if |cands| == 0 then []
    else
      var row := ScoreRow(ratio, cands[0], apps);
      assert forall x | x in row :: exists j | 0 <= j < |apps| :: x == row[j];
      row + Scored(ratio, cands[1..], apps)
  }

  /** `p` holds the first occurrence of the maximal score of `xs`. */
  predicate IsFirstMax(xs: seq<ResolvedApp>, p: nat) {
    && p < |xs|
    && (forall j | 0 <= j < |xs| :: xs[j].score <= xs[p].score)
    && (forall j | 0 <= j < p :: xs[j].score < xs[p].score)
  }

  /**
   * The scan `if best is None or score > best.score: best = ...`, resumed at
   * position `i` with the best so far at `best`.
   */
  function BestFrom(xs: seq<ResolvedApp>, i: nat, best: nat): (p: nat)
    requires best < i <= |xs|
    requires IsFirstMax(xs[..i], best)
    ensures IsFirstMax(xs, p)
    decreases |xs| - i
  {
    if i == |xs| then
      assert xs[..i] == xs;
      best
    else if xs[i].score > xs[best].score then
      BestFrom(xs, i + 1, i)
    else
      BestFrom(xs, i + 1, best)
  }

  /** The first maximum is unique. */
  lemma FirstMaxUnique(xs: seq<ResolvedApp>, p: nat, q: nat)
    requires IsFirstMax(xs, p) && IsFirstMax(xs, q)
    ensures p == q
  {
    assert xs[q].score <= xs[p].score;
    assert xs[p].score <= xs[q].score;
  }

  /** The first entry with the largest score: later ties never replace it (strict `>`). */
  function FirstMaxIndex(xs: seq<ResolvedApp>): (p: nat)
    requires |xs| > 0
    ensures IsFirstMax(xs, p)
  {
    BestFrom(xs, 1, 0)
  }

  /** Fuzzy tier: the first best-scoring (candidate, entry) pair, if there is any pair. */
  function FuzzyBest(ratio: Ratio, cands: seq<string>, apps: AssocList): (r: Option<ResolvedApp>)
    ensures r.None? <==> |cands| == 0 || |apps| == 0
    ensures r.Some? ==> exists p: nat :: IsFirstMax(Scored(ratio, cands, apps), p)
                                    && Scored(ratio, cands, apps)[p] == r.value
  {
    var xs := Scored(ratio, cands, apps);
    if |xs| == 0 then None
    else
      var p := FirstMaxIndex(xs);
      assert IsFirstMax(xs, p);
      Some(xs[p])
  }

  /** The reject rules of the fuzzy tier: short phrases need 0.90, every phrase needs 0.72. */
  function AcceptFuzzy(best: ResolvedApp, key: string): (r: Option<ResolvedApp>)
    ensures r.Some? <==> Acceptable(best.score, SpokenLength(key))
    ensures r.Some? ==> r.value == best
  {
    if SpokenLength(key) < MinConfidentLength && best.score < ShortPhraseThreshold then None
    else if best.score < MatchThreshold then None
    else Some(best)
  }

  /**
   * `_resolve_app`: normalise the phrase, then try the exact tier, the
   * containment tier and the fuzzy tier, in that order.
   */
  function ResolveApp(ratio: Ratio, appSpoken: string, apps: AssocList): (r: Option<ResolvedApp>)
    ensures Normalize(appSpoken) == "" ==> r.None?
    ensures apps == [] ==> r.None?
    ensures r.Some? ==> (r.value.name, r.value.command) in apps
    ensures r.Some? ==> Acceptable(r.value.score, SpokenLength(Normalize(appSpoken)))
    ensures r.Some? && r.value.exact ==> r.value.name == Normalize(appSpoken) && r.value.score == ExactScore
    ensures RatioBounded(ratio) && r.Some? ==> 0.0 <= r.value.score <= 1.0
    ensures var key := Normalize(appSpoken);
            key != "" && key in Keys(apps) ==> r == Some(ResolvedApp(key, Lookup(apps, key).value, ExactScore, true))
  {
    var key := Normalize(appSpoken);
    if key == "" then None
    else
      var cands := Candidates(key);
      match ExactTier(cands, key, apps)
      case Some(hit) =>
        assert (hit.name, hit.command) in apps;
        Some(hit)
      case None =>
        match ContainTier(cands, apps)
        case Some(hit) => Some(hit)
        case None =>
          match FuzzyBest(ratio, cands, apps)
          case None => None
          case Some(best) => AcceptFuzzy(best, key)
  }

  /** An exact hit on the filler-stripped phrase scores 1.0 but is not exact. */
  lemma ResolveAppExactClean(ratio: Ratio, appSpoken: string, apps: AssocList)
    requires Normalize(appSpoken) !in Keys(apps)
    requires StripFillers(Normalize(appSpoken)) != ""
    requires StripFillers(Normalize(appSpoken)) in Keys(apps)
    ensures var clean := StripFillers(Normalize(appSpoken));
            ResolveApp(ratio, appSpoken, apps) == Some(ResolvedApp(clean, Lookup(apps, clean).value, ExactScore, false))
  {
    var key := Normalize(appSpoken);
    var clean := StripFillers(key);
    assert key != "";
    assert clean != key;
    var cands := Candidates(key);
    assert cands == [key, clean];
    var exact := ExactTier(cands, key, apps);
    assert exact.Some? && exact.value.name == clean;
  }

  /** The containment tier returns the first hit of the first candidate that has one. */
  lemma {:induction false} ContainTierFirst(cands: seq<string>, apps: AssocList, c: nat, j: nat)
    requires c < |cands| && j < |apps|
    requires ContainHit(cands[c], apps[j].0)
    requires forall c', j' | 0 <= c' < c && 0 <= j' < |apps| :: !ContainHit(cands[c'], apps[j'].0)
    requires forall j' | 0 <= j' < j :: !ContainHit(cands[c], apps[j'].0)
    ensures ContainTier(cands, apps) == Some(ResolvedApp(apps[j].0, apps[j].1, ContainmentScore, false))
  {
    if c == 0 {
      var hit := FirstKeyWhere(apps, name => ContainHit(cands[0], name));
      assert hit == Some(j) by {
        assert hit.Some?;
        assert hit.value >= j;
      }
    } else {
      assert FirstKeyWhere(apps, name => ContainHit(cands[0], name)).None?;
      ContainTierFirst(cands[1..], apps, c - 1, j);
    }
  }

  /**
   * Without an exact hit, `_resolve_app` returns the first catalogue entry,
   * in insertion order, that the first hitting candidate contains, equals or
   * is contained in, with score 0.90.
   */
  lemma ResolveAppContainment(ratio: Ratio, appSpoken: string, apps: AssocList, c: nat, j: nat)
    requires Normalize(appSpoken) != ""
    requires forall cand | cand in Candidates(Normalize(appSpoken)) :: cand !in Keys(apps)
    requires c < |Candidates(Normalize(appSpoken))| && j < |apps|
    requires ContainHit(Candidates(Normalize(appSpoken))[c], apps[j].0)
    requires forall c', j' | 0 <= c' < c && 0 <= j' < |apps| ::
               !ContainHit(Candidates(Normalize(appSpoken))[c'], apps[j'].0)
    requires forall j' | 0 <= j' < j :: !ContainHit(Candidates(Normalize(appSpoken))[c], apps[j'].0)
    ensures ResolveApp(ratio, appSpoken, apps) == Some(ResolvedApp(apps[j].0, apps[j].1, ContainmentScore, false))
  {
    var cands := Candidates(Normalize(appSpoken));
    ContainTierFirst(cands, apps, c, j);
    assert ExactTier(cands, Normalize(appSpoken), apps).None?;
  }

  /** No candidate is a catalogue key, and none is in a containment hit with one. */
  predicate NoTierHit(cands: seq<string>, apps: AssocList) {
    && (forall cand | cand in cands :: cand !in Keys(apps))
    && (forall cand, j | cand in cands && 0 <= j < |apps| :: !ContainHit(cand, apps[j].0))
  }

  /**
   * Without an exact or containment hit, `_resolve_app` takes the first
   * maximal fuzzy score and accepts it only under the reject rules.
   */
  lemma ResolveAppFuzzy(ratio: Ratio, appSpoken: string, apps: AssocList)
    requires Normalize(appSpoken) != ""
    requires NoTierHit(Candidates(Normalize(appSpoken)), apps)
    ensures var key := Normalize(appSpoken);
            var xs := Scored(ratio, Candidates(key), apps);
            forall p: nat | IsFirstMax(xs, p) ::
              ResolveApp(ratio, appSpoken, apps)
                == if Acceptable(xs[p].score, SpokenLength(key)) then Some(xs[p]) else None
  {
    var key := Normalize(appSpoken);
    var xs := Scored(ratio, Candidates(key), apps);
    var best := FuzzyBest(ratio, Candidates(key), apps);
    ResolveAppFuzzyTier(ratio, appSpoken, apps);
    forall p: nat | IsFirstMax(xs, p)
      ensures ResolveApp(ratio, appSpoken, apps)
                == if Acceptable(xs[p].score, SpokenLength(key)) then Some(xs[p]) else None
    {
      var q: nat :| IsFirstMax(xs, q) && xs[q] == best.value;
      FirstMaxUnique(xs, p, q);
    }
  }

  /** Without an exact or containment hit, the fuzzy tier decides. */
  lemma ResolveAppFuzzyTier(ratio: Ratio, appSpoken: string, apps: AssocList)
    requires Normalize(appSpoken) != ""
    requires NoTierHit(Candidates(Normalize(appSpoken)), apps)
    ensures var key := Normalize(appSpoken);
            ResolveApp(ratio, appSpoken, apps)
              == match FuzzyBest(ratio, Candidates(key), apps)
                 case None => None
                 case Some(best) => AcceptFuzzy(best, key)
  {
    var cands := Candidates(Normalize(appSpoken));
    assert ExactTier(cands, Normalize(appSpoken), apps).None? by {
      forall i | 0 <= i < |cands| ensures cands[i] !in Keys(apps) {
        assert cands[i] in cands;
      }
    }
    assert ContainTier(cands, apps).None? by {
      forall i, j | 0 <= i < |cands| && 0 <= j < |apps| ensures !ContainHit(cands[i], apps[j].0) {
        assert cands[i] in cands;
      }
    }
  }

  /** A first maximum of `xs` is also the first maximum of `xs` repeated. */
  lemma FirstMaxRepeated(xs: seq<ResolvedApp>, p: nat)
    requires IsFirstMax(xs, p)
    ensures IsFirstMax(xs + xs, p)
  {
    var ys := xs + xs;
    forall j | 0 <= j < |ys| ensures ys[j].score <= ys[p].score {
      if j >= |xs| { assert ys[j] == xs[j - |xs|]; }
    }
  }

  /**
   * The filler-stripped candidate never changes the fuzzy choice: it scores
   * every entry exactly as the full phrase does, and later ties lose.
   */
  lemma FuzzyStrippedPassRedundant(ratio: Ratio, key: string, apps: AssocList)
    ensures FuzzyBest(ratio, Candidates(key), apps) == FuzzyBest(ratio, [key], apps)
  {
    var cands := Candidates(key);
    if |cands| == 2 && |apps| > 0 {
      var row := ScoreRow(ratio, key, apps);
      assert Scored(ratio, [key], apps) == row + Scored(ratio, [], apps);
      assert Scored(ratio, [key], apps) == row;
      assert ScoreRow(ratio, cands[1], apps) == row by {
        forall j | 0 <= j < |apps| ensures ScoreRow(ratio, cands[1], apps)[j] == row[j] {
          AppMatchScorePrestripped(ratio, key, apps[j].0);
        }
      }
      assert Scored(ratio, cands[1..], apps) == row + Scored(ratio, [], apps);
      assert Scored(ratio, cands, apps) == row + row;
      var p := FirstMaxIndex(row);
      FirstMaxRepeated(row, p);
      var q := FirstMaxIndex(row + row);
      FirstMaxUnique(row + row, p, q);
    }
  }

  /** The delete-alias scan's test: equal, containing or contained, with no length guard. */
  predicate AliasHit(key: string, name: string) {
    key == name || Contains(name, key) || Contains(key, name)
  }

  /**
   * `_resolve_delete_alias`: the target bound to the normalised alias, else
   * the target of the first entry, in insertion order, whose key equals,
   * contains or is contained in it.
   */
  function ResolveDeleteAlias(aliasSpoken: string, aliases: AssocList): (r: Option<string>)
    ensures Normalize(aliasSpoken) in Keys(aliases) ==> r == Lookup(aliases, Normalize(aliasSpoken))
    ensures r.None? <==> forall j | 0 <= j < |aliases| :: !AliasHit(Normalize(aliasSpoken), aliases[j].0)
    ensures r.Some? ==> exists j | 0 <= j < |aliases| :: aliases[j].1 == r.value
                                                        && AliasHit(Normalize(aliasSpoken), aliases[j].0)
    ensures Normalize(aliasSpoken) !in Keys(aliases) ==>
              forall j | 0 <= j < |aliases| && AliasHit(Normalize(aliasSpoken), aliases[j].0)
                                             && (forall i | 0 <= i < j :: !AliasHit(Normalize(aliasSpoken), aliases[i].0)) ::
                r == Some(aliases[j].1)
  {
    var key := Normalize(aliasSpoken);
    match Lookup(aliases, key)
    case Some(target) =>
      var i := IndexOf(aliases, key).value;
      assert AliasHit(key, aliases[i].0);
      Some(target)
    case None =>
      FirstKeyWhereIsFirst(aliases, name => AliasHit(key, name));
      match FirstKeyWhere(aliases, name => AliasHit(key, name))
      case Some(j) => Some(aliases[j].1)
      case None => None
  }

  /** An empty spoken alias, when not itself a key, selects the first configured entry. */
  lemma ResolveDeleteAliasEmpty(aliasSpoken: string, aliases: AssocList)
    requires Normalize(aliasSpoken) == ""
    requires "" !in Keys(aliases)
    requires |aliases| > 0
    ensures ResolveDeleteAlias(aliasSpoken, aliases) == Some(aliases[0].1)
  {
    assert Contains(aliases[0].0, "");
  }

  /**
   * An entry whose name is empty is contained in every phrase: placed
   * first, it answers every phrase that is not itself a key.
   */
  lemma ResolveDeleteAliasEmptyName(aliasSpoken: string, aliases: AssocList)
    requires |aliases| > 0 && aliases[0].0 == ""
    requires Normalize(aliasSpoken) !in Keys(aliases)
    ensures ResolveDeleteAlias(aliasSpoken, aliases) == Some(aliases[0].1)
  {
    assert Contains(Normalize(aliasSpoken), "");
  }
}
