/** Filler-token removal (`_strip_fillers`) and token sets (`_token_set`). */
module Fillers {
  import opened Text

  /** Articles, prepositions, conjunctions and recogniser noise words. */
  const FillerTokens: set<string> := {
    "a", "au", "aux", "de", "des", "du", "d", "l", "le", "la", "les", "un", "une",
    "et", "ou", "en", "dans", "sur", "pour", "avec",
    "ce", "ca", "cela", "c", "est", "s", "soeur", "soeurs"
  }

  predicate NotFiller(w: string) {
    w !in FillerTokens
  }

  /** The tokens that are not fillers, in their original order and with their repeats. */
  function KeepNonFillers(ws: seq<string>): (r: seq<string>)
    ensures |r| <= |ws|
    ensures forall w :: w in r <==> w in ws && w !in FillerTokens
    ensures (forall i | 0 <= i < |ws| :: ws[i] !in FillerTokens) ==> r == ws
    ensures AllWords(ws) ==> AllWords(r)
  {
    FilterMembers(NotFiller, ws);
    FilterAll(NotFiller, ws);
    if AllWords(ws) then
      FilterAllWords(NotFiller, ws);
      Filter(NotFiller, ws)
    else Filter(NotFiller, ws)
  }

  /**
   * Dropping fillers distributes over concatenation; with the contract's
   * single-token cases (a filler goes, any other token stays) this
   * determines the function.
   */
  lemma KeepNonFillersConcat(a: seq<string>, b: seq<string>)
    ensures KeepNonFillers(a + b) == KeepNonFillers(a) + KeepNonFillers(b)
  {
    FilterConcat(NotFiller, a, b);
  }

  /** Filtering twice removes nothing more. */
  lemma KeepNonFillersIdempotent(ws: seq<string>)
    ensures KeepNonFillers(KeepNonFillers(ws)) == KeepNonFillers(ws)
  {
    FilterIdempotent(NotFiller, ws);
  }

  /**
   * `_strip_fillers`: normalise, drop the filler tokens, rejoin with single
   * spaces; `""` when nothing remains.
   */
  function StripFillers(text: string): (r: string)
    ensures IsNormalized(r)
    ensures Words(r) == KeepNonFillers(Words(Normalize(text)))
    ensures forall w | w in Words(r) :: w !in FillerTokens
    ensures Normalize(text) == "" ==> r == ""
  {
    var t := Normalize(text);
    if t == "" then ""
    else
      var toks := KeepNonFillers(Words(t));
      JoinWordsNormalized(toks);
      SplitJoin(toks);
      JoinSpace(toks)
  }

  /** Stripping a stripped phrase changes nothing. */
  lemma StripFillersIdempotent(text: string)
    ensures StripFillers(StripFillers(text)) == StripFillers(text)
  {
    var r := StripFillers(text);
    NormalizeFixpoint(r);
    KeepNonFillersIdempotent(Words(Normalize(text)));
    JoinSplit(r);
  }

  /** Stripping only looks at the normalised form of its input. */
  lemma StripFillersNormalized(text: string)
    ensures StripFillers(Normalize(text)) == StripFillers(text)
  {
    NormalizeIdempotent(text);
  }

  /** `_token_set`: the distinct tokens of (normalised) text. */
  function TokenSet(text: string): (r: set<string>)
    ensures forall w :: w in r <==> w in Words(text)
    ensures forall w | w in r :: IsWord(w)
    ensures IsNormalized(text) ==> (r == {} <==> text == "")
  {
    var r := set w | w in Words(text);
    if IsNormalized(text) && text != "" then
      JoinSplit(text);
      assert Words(text)[0] in r;
      r
    else r
  }

  /** The token set of tokens joined by spaces is the set of those tokens. */
  lemma TokenSetJoin(ws: seq<string>)
    requires AllWords(ws)
    ensures TokenSet(JoinSpace(ws)) == set w | w in ws
  {
    SplitJoin(ws);
  }
}
