/** Similarity scoring (`_similarity`, `_app_match_score`). */
module Score {
  import opened Text
  import opened Fillers
  import opened Phonetic

  /**
   * The ratio of a longest-matching-blocks sequence matcher,
   * `SequenceMatcher(None, a, b).ratio()`, supplied by the caller.
   */
  type Ratio = (string, string) -> real

  /** The matcher's ratio lies in [0, 1], as the library documents. */
  ghost predicate RatioBounded(ratio: Ratio) {
    forall a, b :: 0.0 <= ratio(a, b) <= 1.0
  }

  /** `_similarity`: 0 when either side is empty, the matcher's ratio otherwise. */
  function Similarity(ratio: Ratio, a: string, b: string): (r: real)
    ensures a == "" || b == "" ==> r == 0.0
    ensures a != "" && b != "" ==> r == ratio(a, b)
    ensures RatioBounded(ratio) ==> 0.0 <= r <= 1.0
  {
    if a == "" || b == "" then 0.0 else ratio(a, b)
  }

  function Max(x: real, y: real): real {
    if x >= y then x else y
  }

  /** |A ∩ B| / |A ∪ B|, or 0 when either set is empty. */
  function Jaccard(a: set<string>, b: set<string>): (r: real)
    ensures 0.0 <= r <= 1.0
    ensures a != {} && a == b ==> r == 1.0
    ensures a * b == {} ==> r == 0.0
  {
    if a == {} || b == {} then 0.0
    else
      SubsetCard(a * b, a + b);
      SubsetCard(a, a + b);
      assert a == b ==> a * b == a + b;
      Fraction(|a * b|, |a + b|);
      (|a * b| as real) / (|a + b| as real)
  }

  /** A part over a non-empty whole lies in [0, 1], and is 1 exactly for the whole. */
  lemma Fraction(part: nat, whole: nat)
    requires 0 < whole && part <= whole
    ensures 0.0 <= (part as real) / (whole as real) <= 1.0
    ensures part == whole ==> (part as real) / (whole as real) == 1.0
  {
  }

  lemma {:induction false} SubsetCard(x: set<string>, y: set<string>)
    requires x <= y
    ensures |x| <= |y|
    decreases |x|
  {
    if x != {} {
      var e :| e in x;
      SubsetCard(x - {e}, y - {e});
    }
  }

  /** Scoring weight of the character similarity in the blended score. */
  const CharWeight: real := 0.80
  /** Scoring weight of the token overlap in the blended score. */
  const TokenWeight: real := 0.20
  /** Score granted when one key is a substring of the other. */
  const ContainmentBoost: real := 0.88
  /** Shortest spoken key that may claim a substring relationship. */
  const MinConfidentLength: nat := 4

  /** The substring relation between two keys, as tested by the scorer and the resolver. */
  predicate SubstringEither(a: string, b: string) {
    Contains(b, a) || Contains(a, b)
  }

  /**
   * `_app_match_score`: the best of the containment boost, the blend
   * 0.80 * character similarity + 0.20 * token Jaccard, and the character
   * similarity alone, computed on the filler-stripped spoken key.
   */
  function AppMatchScore(ratio: Ratio, spokenKey: string, appKey: string): (r: real)
    ensures spokenKey == "" || appKey == "" || StripFillers(spokenKey) == "" ==> r == 0.0
    ensures RatioBounded(ratio) ==> 0.0 <= r <= 1.0
    ensures var s := StripFillers(spokenKey);
            (spokenKey != "" && appKey != "" && |s| >= MinConfidentLength
             && SubstringEither(s, Normalize(appKey))) ==> r >= ContainmentBoost
  {
    if spokenKey == "" || appKey == "" then 0.0
    else ScoreStripped(ratio, StripFillers(spokenKey), appKey)
  }

  /** The score of an already filler-stripped spoken key against a configured name. */
  function ScoreStripped(ratio: Ratio, spoken: string, appKey: string): (r: real)
    ensures spoken == "" ==> r == 0.0
    ensures RatioBounded(ratio) ==> 0.0 <= r <= 1.0
    ensures spoken != "" && |spoken| >= MinConfidentLength && SubstringEither(spoken, Normalize(appKey)) ==>
              r >= ContainmentBoost
  {
    if spoken == "" then 0.0
    else
      var app := Normalize(appKey);
      var base := if |spoken| >= MinConfidentLength && SubstringEither(spoken, app)
                  then ContainmentBoost else 0.0;
      var charSim := CharSimilarity(ratio, spoken, app);
      var tokenJaccard := Jaccard(TokenSet(spoken), TokenSet(app));
      Combine(base, charSim, tokenJaccard)
  }

  /** The final score: the best of the containment floor, the blend and the character similarity. */
  function Combine(base: real, charSim: real, tokenJaccard: real): (r: real)
    requires 0.0 <= tokenJaccard <= 1.0
    ensures r >= base && r >= charSim
    ensures 0.0 <= base <= 1.0 && 0.0 <= charSim <= 1.0 ==> 0.0 <= r <= 1.0
  {
    Max(Max(base, Blend(charSim, tokenJaccard)), charSim)
  }

  /**
   * The best character similarity of the two keys: as written, with the
   * spaces removed, and of their consonant skeletons.
   */
  function CharSimilarity(ratio: Ratio, spoken: string, app: string): (r: real)
    ensures RatioBounded(ratio) ==> 0.0 <= r <= 1.0
    ensures r >= Similarity(ratio, spoken, app)
  {
    var skelSim := Similarity(ratio, Skeleton(spoken), Skeleton(app));
    Max(Max(Similarity(ratio, spoken, app),
           Similarity(ratio, RemoveSpaces(spoken), RemoveSpaces(app))),
        skelSim)
  }

  /** The weighted blend of character similarity and token overlap. */
  function Blend(charSim: real, tokenJaccard: real): (r: real)
    requires 0.0 <= tokenJaccard <= 1.0
    ensures 0.0 <= charSim <= 1.0 ==> 0.0 <= r <= 1.0
    ensures 0.0 <= charSim ==> 0.0 <= r
  {
    CharWeight * charSim + TokenWeight * tokenJaccard
  }

  /** Pre-stripping the spoken key does not change its score. */
  lemma AppMatchScorePrestripped(ratio: Ratio, spokenKey: string, appKey: string)
    ensures AppMatchScore(ratio, StripFillers(spokenKey), appKey) == AppMatchScore(ratio, spokenKey, appKey)
  {
    StripFillersIdempotent(spokenKey);
  }
}
