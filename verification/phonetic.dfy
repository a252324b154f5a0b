/** The consonant signature of a phrase (`_skeleton`). */
module Phonetic {
  import opened Text

  /**
   * Python's `s.replace(pat, rep)`: scan left to right, replace each
   * non-overlapping occurrence of `pat`, resume after it.
   */
  function ReplaceAll(s: string, pat: string, rep: string): (r: string)
    requires |pat| > 0
    ensures |rep| <= |pat| ==> |r| <= |s|
    ensures forall c | c in r :: c in s || c in rep
    ensures |pat| == 1 && pat[0] !in rep ==> pat[0] !in r
    decreases |s|
  {
    if |s| < |pat| then
      assert |pat| == 1 ==> s == "";
      s
    else if pat <= s then rep + ReplaceAll(s[|pat|..], pat, rep)
    else [s[0]] + ReplaceAll(s[1..], pat, rep)
  }

  /** Text in which the pattern does not occur is left unchanged. */
  lemma {:induction false} ReplaceAllAbsent(s: string, pat: string, rep: string)
    requires |pat| > 0
    ensures !Contains(s, pat) ==> ReplaceAll(s, pat, rep) == s
    decreases |s|
  {
    if |s| >= |pat| && !Contains(s, pat) {
      ReplaceAllAbsent(s[1..], pat, rep);
      assert s == [s[0]] + s[1..];
    }
  }

  /**
   * The occurrence of `pat` right after `a` is replaced when no earlier one
   * starts inside `a`, and the scan resumes after it. With the unchanged
   * case of `ReplaceAll` this determines the function.
   */
  lemma {:induction false} ReplaceAllLeftmost(a: string, b: string, pat: string, rep: string)
    requires |pat| > 0
    requires !Contains(a + pat[..|pat| - 1], pat)
    ensures ReplaceAll(a + pat + b, pat, rep) == a + rep + ReplaceAll(b, pat, rep)
    decreases |a|
  {
    var s := a + (pat + b);
    Assoc(a, pat, b);
    if |a| == 0 {
      assert s == pat + b;
      assert s[|pat|..] == b;
    } else {
      var a' := a[1..];
      NoMatchBefore(a, b, pat);
      ReplaceAllSkip(s, pat, rep);
      var x := ReplaceAll(b, pat, rep);
      ConsSplit(a, pat + b);
      Assoc(a', pat, b);
      ReplaceAllLeftmost(a', b, pat, rep);
      Assoc(a', rep, x);
      Assoc(a, rep, x);
      ConsSplit(a, rep + x);
    }
  }

  lemma Assoc(a: string, b: string, c: string)
    ensures a + b + c == a + (b + c)
  {
  }

  lemma ConsSplit(a: string, b: string)
    requires |a| > 0
    ensures a + b == [a[0]] + (a[1..] + b)
    ensures (a + b)[1..] == a[1..] + b
  {
  }

  /** Where `pat` does not start, `ReplaceAll` keeps the character and moves on. */
  lemma ReplaceAllSkip(s: string, pat: string, rep: string)
    requires |pat| > 0 && |s| >= |pat| && !(pat <= s)
    ensures ReplaceAll(s, pat, rep) == [s[0]] + ReplaceAll(s[1..], pat, rep)
  {
  }

  /** The hypothesis of `ReplaceAllLeftmost` excludes a match at the start of `a`, and carries on. */
  lemma NoMatchBefore(a: string, b: string, pat: string)
    requires |pat| > 0 && |a| > 0
    requires !Contains(a + pat[..|pat| - 1], pat)
    ensures !(pat <= a + pat + b)
    ensures !Contains(a[1..] + pat[..|pat| - 1], pat)
  {
    var h := a + pat[..|pat| - 1];
    var s := a + pat + b;
    assert !(pat <= h) && !Contains(h[1..], pat);
    assert h[1..] == a[1..] + pat[..|pat| - 1];
    assert h[..|pat|] == s[..|pat|];
  }

  /** A pattern whose first character is absent does not occur. */
  lemma {:induction false} AbsentFirst(s: string, pat: string)
    requires |pat| > 0
    ensures pat[0] !in s ==> !Contains(s, pat)
    decreases |s|
  {
    if |s| > 0 && pat[0] !in s {
      assert s == [s[0]] + s[1..];
      assert pat[0] != s[0];
      AbsentFirst(s[1..], pat);
    }
  }

  /** Where `pat` starts, `ReplaceAll` emits the replacement and resumes after the match. */
  lemma ReplaceAllMatch(s: string, pat: string, rep: string)
    requires |pat| > 0 && |s| >= |pat| && pat <= s
    ensures ReplaceAll(s, pat, rep) == rep + ReplaceAll(s[|pat|..], pat, rep)
  {
  }

  lemma DropSplit(a: string, b: string, k: nat)
    requires k <= |a|
    ensures (a + b)[k..] == a[k..] + b
    ensures a[..k] == (a + b)[..k]
  {
  }

  /**
   * A character outside the pattern is never consumed, and a character
   * that is consumed leaves the replacement behind.
   */
  lemma {:induction false} ReplaceAllKeeps(s: string, pat: string, rep: string, d: char)
    requires |pat| > 0 && |rep| > 0
    ensures d in s && d !in pat ==> d in ReplaceAll(s, pat, rep)
    ensures d in s ==> d in ReplaceAll(s, pat, rep) || rep[0] in ReplaceAll(s, pat, rep)
    decreases |s|
  {
    if d in s && |s| >= |pat| {
      if pat <= s {
        var rest := s[|pat|..];
        ReplaceAllMatch(s, pat, rep);
        ReplaceAllKeeps(rest, pat, rep, d);
        assert s == s[..|pat|] + rest;
        assert rep[0] in rep + ReplaceAll(rest, pat, rep);
        if d !in pat {
          assert d in rest;
        }
      } else {
        ReplaceAllSkip(s, pat, rep);
        ReplaceAllKeeps(s[1..], pat, rep, d);
        assert s == [s[0]] + s[1..];
      }
    }
  }

  /**
   * `replace` distributes over a concatenation when no occurrence of a
   * one- or two-character pattern can straddle the boundary.
   */
  lemma {:induction false} ReplaceAllConcat(x: string, y: string, pat: string, rep: string)
    requires |pat| == 1 || (|pat| == 2 && (x == "" || x[|x| - 1] != pat[0]))
    ensures ReplaceAll(x + y, pat, rep) == ReplaceAll(x, pat, rep) + ReplaceAll(y, pat, rep)
    decreases |x|
  {
    var s := x + y;
    if |x| == 0 {
      assert s == y;
    } else if |s| < |pat| {
      assert y == "" && s == x;
    } else if pat <= s {
      assert |x| >= |pat|;
      DropSplit(x, y, |pat|);
      assert pat <= x;
      var x' := x[|pat|..];
      ReplaceAllMatch(s, pat, rep);
      ReplaceAllMatch(x, pat, rep);
      assert x' == "" || x'[|x'| - 1] == x[|x| - 1];
      ReplaceAllConcat(x', y, pat, rep);
      Assoc(rep, ReplaceAll(x', pat, rep), ReplaceAll(y, pat, rep));
    } else {
      var x' := x[1..];
      ConsSplit(x, y);
      ReplaceAllSkip(s, pat, rep);
      if |x| >= |pat| {
        DropSplit(x, y, |pat|);
        ReplaceAllSkip(x, pat, rep);
      } else {
        assert x == [x[0]] + x';
      }
      assert x' == "" || x'[|x'| - 1] == x[|x| - 1];
      ReplaceAllConcat(x', y, pat, rep);
      Assoc([x[0]], ReplaceAll(x', pat, rep), ReplaceAll(y, pat, rep));
    }
  }

  /** The result ends with the input's last character or with the replacement's. */
  lemma {:induction false} ReplaceAllLast(x: string, pat: string, rep: string)
    requires |pat| > 0 && |rep| > 0 && |x| > 0
    ensures var r := ReplaceAll(x, pat, rep);
            |r| > 0 && (r[|r| - 1] == x[|x| - 1] || r[|r| - 1] == rep[|rep| - 1])
    decreases |x|
  {
    if |x| >= |pat| {
      if pat <= x {
        ReplaceAllMatch(x, pat, rep);
        if |x| > |pat| {
          ReplaceAllLast(x[|pat|..], pat, rep);
        }
      } else {
        ReplaceAllSkip(x, pat, rep);
        if |x| > 1 {
          ReplaceAllLast(x[1..], pat, rep);
        }
      }
    }
  }

  predicate IsVowel(c: char) {
    c in "aeiouy"
  }

  predicate NotVowel(c: char) {
    !IsVowel(c)
  }

  /** `[ch for ch in t if ch not in vowels]`. */
  function DropVowels(s: string): (r: string)
    ensures |r| <= |s|
    ensures forall c :: c in r <==> c in s && !IsVowel(c)
  {
    FilterMembers(NotVowel, s);
    Filter(NotVowel, s)
  }

  /** Dropping vowels distributes over concatenation, so consonants keep their order and count. */
  lemma DropVowelsConcat(a: string, b: string)
    ensures DropVowels(a + b) == DropVowels(a) + DropVowels(b)
  {
    FilterConcat(NotVowel, a, b);
  }

  /** A single character: a vowel goes, anything else stays. */
  lemma DropVowelsChar(c: char)
    ensures DropVowels([c]) == if IsVowel(c) then [] else [c]
  {
    FilterCons(NotVowel, c, []);
    assert [c] + [] == [c];
    assert Filter(NotVowel, []) == [];
  }

  /** No character is immediately repeated. */
  predicate NoAdjacentRepeat(s: string) {
    forall i, j | 0 <= i && j == i + 1 < |s| :: s[i] != s[j]
  }

  /** Keep a character only when it differs from the last one kept. */
  function CollapseRepeats(s: string): (r: string)
    ensures |r| <= |s|
    ensures forall c :: c in r <==> c in s
    ensures NoAdjacentRepeat(r)
    ensures |s| > 0 ==> |r| > 0 && r[|r| - 1] == s[|s| - 1]
    decreases |s|
  {
    if |s| <= 1 then s
    else
      var init := s[..|s| - 1];
      var r := CollapseRepeats(init);
      assert s == init + [s[|s| - 1]];
      if s[|s| - 1] == s[|s| - 2] then
        assert s[|s| - 2] in init;
        r
      else r + [s[|s| - 1]]
  }

  /** Text without immediate repeats is left as it is: collapsing is idempotent. */
  lemma {:induction false} CollapseRepeatsFixpoint(s: string)
    requires NoAdjacentRepeat(s)
    ensures CollapseRepeats(s) == s
    decreases |s|
  {
    if |s| > 1 {
      CollapseRepeatsFixpoint(s[..|s| - 1]);
      assert s[..|s| - 1] + [s[|s| - 1]] == s;
    }
  }

  /**
   * Runs never span a boundary between two different characters, so the
   * two sides collapse separately.
   */
  lemma {:induction false} CollapseRepeatsConcat(a: string, b: string)
    requires |a| > 0 && |b| > 0 && a[|a| - 1] != b[0]
    ensures CollapseRepeats(a + b) == CollapseRepeats(a) + CollapseRepeats(b)
    decreases |b|
  {
    var s := a + b;
    var x := b[|b| - 1];
    if |b| == 1 {
      assert s[..|s| - 1] == a;
      assert s[|s| - 2] == a[|a| - 1];
    } else {
      var b' := b[..|b| - 1];
      assert s[..|s| - 1] == a + b';
      assert s[|s| - 2] == b[|b| - 2];
      assert b'[0] == b[0];
      CollapseRepeatsConcat(a, b');
    }
  }

  /** The spelling-confusion substitutions, applied in the source's order. */
  function Substitute(s: string): (r: string)
    ensures |r| <= |s|
    ensures forall c | c in r :: c in s || c in "fks"
    ensures forall c | c in r :: c !in "cqzv"
    ensures !Contains(s, "ph") && (forall c | c in s :: c !in "cqzv") ==> r == s
  {
    var s1 := ReplaceAll(s, "ph", "f");
    var s2 := ReplaceAll(s1, "qu", "k");
    var s3 := ReplaceAll(s2, "ck", "k");
    var s4 := ReplaceAll(s3, "c", "k");
    var s5 := ReplaceAll(s4, "q", "k");
    var s6 := ReplaceAll(s5, "z", "s");
    ReplaceAllAbsent(s, "ph", "f");
    AbsentFirst(s1, "qu");
    ReplaceAllAbsent(s1, "qu", "k");
    AbsentFirst(s2, "ck");
    ReplaceAllAbsent(s2, "ck", "k");
    AbsentFirst(s3, "c");
    ReplaceAllAbsent(s3, "c", "k");
    AbsentFirst(s4, "q");
    ReplaceAllAbsent(s4, "q", "k");
    AbsentFirst(s5, "z");
    ReplaceAllAbsent(s5, "z", "s");
    AbsentFirst(s6, "v");
    ReplaceAllAbsent(s6, "v", "f");
    ReplaceAll(s6, "v", "f")
  }

  /** The substitution table: each digraph and letter it rewrites, on its own. */
  lemma SubstituteTable()
    ensures Substitute("ph") == "f" && Substitute("qu") == "k" && Substitute("ck") == "k"
    ensures Substitute("c") == "k" && Substitute("q") == "k"
    ensures Substitute("z") == "s" && Substitute("v") == "f"
  {
    SubstituteDigraph("ph", "f");
    SubstituteDigraph("qu", "k");
    SubstituteDigraph("ck", "k");
    SubstituteLetter("c", "k");
    SubstituteLetter("q", "k");
    SubstituteLetter("z", "s");
    SubstituteLetter("v", "f");
  }

  lemma SubstituteDigraph(pat: string, rep: string)
    requires (pat, rep) in {("ph", "f"), ("qu", "k"), ("ck", "k")}
    ensures Substitute(pat) == rep
  {
    if pat == "ph" {
      ReplaceAllMatch(pat, "ph", "f");
    } else if pat == "qu" {
      ReplaceAllSkip(pat, "ph", "f");
      assert pat[1..] == "u";
      ReplaceAllMatch(pat, "qu", "k");
    } else {
      ReplaceAllSkip(pat, "ph", "f");
      ReplaceAllSkip(pat, "qu", "k");
      assert pat[1..] == "k";
      ReplaceAllMatch(pat, "ck", "k");
    }
    var s1 := ReplaceAll(pat, "ph", "f");
    assert s1 == (if pat == "ph" then "f" else pat);
    var s2 := ReplaceAll(s1, "qu", "k");
    assert s2 == (if pat == "ck" then pat else rep);
    var s3 := ReplaceAll(s2, "ck", "k");
    assert s3 == rep;
    SubstituteTail(s3);
  }

  lemma SubstituteLetter(pat: string, rep: string)
    requires (pat, rep) in {("c", "k"), ("q", "k"), ("z", "s"), ("v", "f")}
    ensures Substitute(pat) == rep
  {
    var s4 := ReplaceAll(pat, "c", "k");
    var s5 := ReplaceAll(s4, "q", "k");
    var s6 := ReplaceAll(s5, "z", "s");
    assert ReplaceAll(s6, "v", "f") == rep;
  }

  /** The single-letter steps leave `f`, `k` and `s` alone. */
  lemma SubstituteTail(s: string)
    requires s in {"f", "k", "s"}
    ensures ReplaceAll(ReplaceAll(ReplaceAll(ReplaceAll(s, "c", "k"), "q", "k"), "z", "s"), "v", "f") == s
  {
  }

  /** No digraph of the table can start at the last character. */
  predicate SafeEnd(x: string) {
    x == "" || x[|x| - 1] !in "pqc"
  }

  lemma SafeEndStep(x: string, pat: string, rep: string)
    requires |pat| > 0 && |rep| > 0 && rep[|rep| - 1] !in "pqc"
    requires SafeEnd(x)
    ensures SafeEnd(ReplaceAll(x, pat, rep))
  {
    if x != "" {
      ReplaceAllLast(x, pat, rep);
    }
  }

  /**
   * Substituting distributes over a concatenation whose left part cannot
   * start a digraph at its end. With the table this determines the
   * function; `"cqu"` becomes `"k"` but `"c"` and `"qu"` apart give `"kk"`,
   * so the condition is needed.
   */
  lemma SubstituteConcat(a: string, b: string)
    requires SafeEnd(a)
    ensures Substitute(a + b) == Substitute(a) + Substitute(b)
  {
    var a1, b1 := ReplaceAll(a, "ph", "f"), ReplaceAll(b, "ph", "f");
    ReplaceAllConcat(a, b, "ph", "f");
    SafeEndStep(a, "ph", "f");
    var a2, b2 := ReplaceAll(a1, "qu", "k"), ReplaceAll(b1, "qu", "k");
    ReplaceAllConcat(a1, b1, "qu", "k");
    SafeEndStep(a1, "qu", "k");
    var a3, b3 := ReplaceAll(a2, "ck", "k"), ReplaceAll(b2, "ck", "k");
    ReplaceAllConcat(a2, b2, "ck", "k");
    var a4, b4 := ReplaceAll(a3, "c", "k"), ReplaceAll(b3, "c", "k");
    ReplaceAllConcat(a3, b3, "c", "k");
    var a5, b5 := ReplaceAll(a4, "q", "k"), ReplaceAll(b4, "q", "k");
    ReplaceAllConcat(a4, b4, "q", "k");
    var a6, b6 := ReplaceAll(a5, "z", "s"), ReplaceAll(b5, "z", "s");
    ReplaceAllConcat(a5, b5, "z", "s");
    ReplaceAllConcat(a6, b6, "v", "f");
  }

  /** What a single letter becomes: `c` and `q` sound as `k`, `z` as `s`, `v` as `f`. */
  function Merged(d: char): (e: char)
    ensures d !in "cqzv" ==> e == d
    ensures !IsVowel(d) ==> !IsVowel(e)
  {
    if d in "cqk" then 'k' else if d == 'z' then 's' else if d == 'v' then 'f' else d
  }

  /**
   * One step of the substitutions keeps `d` or `e` present, provided a
   * match consuming either leaves `e` behind.
   */
  lemma TraceStep(x: string, pat: string, rep: string, d: char, e: char)
    requires |pat| > 0 && |rep| > 0
    requires d in x || e in x
    requires d !in pat || rep[0] == e
    requires e !in pat || rep[0] == e
    ensures d in ReplaceAll(x, pat, rep) || e in ReplaceAll(x, pat, rep)
  {
    ReplaceAllKeeps(x, pat, rep, d);
    ReplaceAllKeeps(x, pat, rep, e);
  }

  /**
   * Every letter of the input leaves a trace: its merged form, or for `p`
   * and `h`, which `ph` consumes, an `f`.
   */
  lemma SubstituteKeeps(s: string, d: char)
    requires d in s
    ensures d !in "phu" ==> Merged(d) in Substitute(s)
    ensures d in "ph" ==> d in Substitute(s) || 'f' in Substitute(s)
    ensures Traced(d, Substitute(s))
  {
    if d != 'u' {
      var e := if d in "ph" then 'f' else Merged(d);
      var s1 := ReplaceAll(s, "ph", "f");
      TraceStep(s, "ph", "f", d, e);
      var s2 := ReplaceAll(s1, "qu", "k");
      TraceStep(s1, "qu", "k", d, e);
      var s3 := ReplaceAll(s2, "ck", "k");
      TraceStep(s2, "ck", "k", d, e);
      var s4 := ReplaceAll(s3, "c", "k");
      TraceStep(s3, "c", "k", d, e);
      var s5 := ReplaceAll(s4, "q", "k");
      TraceStep(s4, "q", "k", d, e);
      var s6 := ReplaceAll(s5, "z", "s");
      TraceStep(s5, "z", "s", d, e);
      TraceStep(s6, "v", "f", d, e);
    }
  }

  /**
   * `_skeleton`: join the tokens, merge similar-sounding spellings, drop the
   * vowels and collapse repeated letters.
   */
  function Skeleton(text: string): (r: string)
    ensures Normalize(text) == "" ==> r == ""
    ensures |r| <= |RemoveSpaces(Normalize(text))|
    ensures forall c | c in r :: IsWordChar(c) && !IsVowel(c) && c !in "cqzv"
    ensures NoAdjacentRepeat(r)
    ensures forall c | c in Normalize(text) && IsWordChar(c) && !IsVowel(c) && c !in "ph" :: Merged(c) in r
    ensures forall c | c in Normalize(text) && c in "ph" :: c in r || 'f' in r
  {
    var t := Normalize(text);
    if t == "" then ""
    else
      var joined := RemoveSpaces(t);
      assert forall c | c in joined :: IsWordChar(c) by {
        forall c | c in joined ensures IsWordChar(c) {
          var i :| 0 <= i < |t| && t[i] == c;
        }
      }
      Signature(joined)
  }

  /** The stages after joining: substitute, drop the vowels, collapse repeats. */
  function Signature(joined: string): (r: string)
    requires forall c | c in joined :: IsWordChar(c)
    ensures |r| <= |joined|
    ensures forall c | c in r :: IsWordChar(c) && !IsVowel(c) && c !in "cqzv"
    ensures NoAdjacentRepeat(r)
    ensures forall c | c in joined :: Traced(c, r)
  {
    var merged := Substitute(joined);
    assert forall c | c in merged :: IsWordChar(c) && c !in "cqzv";
    var r := CollapseRepeats(DropVowels(merged));
    assert forall c | c in joined :: Traced(c, r) by {
      forall c | c in joined ensures Traced(c, r) {
        SignatureKeeps(joined, c);
      }
    }
    r
  }

  /** `d` has left its trace in `r`: its merged form, or for `p` and `h` possibly an `f`. */
  predicate Traced(d: char, r: string) {
    && (d !in "phu" && !IsVowel(d) ==> Merged(d) in r)
    && (d in "ph" ==> d in r || 'f' in r)
  }

  /** A letter of the joined text survives the last three stages as its merged form. */
  lemma SignatureKeeps(joined: string, d: char)
    requires d in joined
    ensures Traced(d, CollapseRepeats(DropVowels(Substitute(joined))))
  {
    SubstituteKeeps(joined, d);
    TracedSurvives(Substitute(joined), d);
  }

  /** Dropping vowels and collapsing repeats never remove the last copy of a consonant. */
  lemma TracedSurvives(m: string, d: char)
    requires Traced(d, m)
    ensures Traced(d, CollapseRepeats(DropVowels(m)))
  {
    var v := DropVowels(m);
    if d !in "phu" && !IsVowel(d) {
      assert Merged(d) in v;
    } else if d in "ph" {
      assert d in v || 'f' in v;
    }
  }

  /** The skeleton depends on the text only through its normal form. */
  lemma SkeletonNormalized(text: string)
    ensures Skeleton(Normalize(text)) == Skeleton(text)
  {
    NormalizeIdempotent(text);
  }

  /**
   * The vowels no substitution pattern mentions. `u` is left out: `qu`
   * becomes `k` but `qa` becomes `ka`.
   */
  predicate IsFreeVowel(c: char) {
    c in "aeioy"
  }

  /** `t` is `s` with some of its free vowels swapped for other free vowels. */
  predicate VowelVariant(s: string, t: string) {
    && |s| == |t|
    && forall i | 0 <= i < |s| :: s[i] == t[i] || (IsFreeVowel(s[i]) && IsFreeVowel(t[i]))
  }

  lemma VariantConcat(a: string, b: string, c: string, d: string)
    requires VowelVariant(a, c) && VowelVariant(b, d)
    ensures VowelVariant(a + b, c + d)
  {
    forall i | 0 <= i < |a + b|
      ensures (a + b)[i] == (c + d)[i] || (IsFreeVowel((a + b)[i]) && IsFreeVowel((c + d)[i]))
    {
      if i >= |a| {
        assert (a + b)[i] == b[i - |a|] && (c + d)[i] == d[i - |a|];
      }
    }
  }

  /** A pattern without free vowels starts the one text exactly when it starts the other. */
  lemma VariantPrefix(s: string, t: string, pat: string)
    requires VowelVariant(s, t)
    requires forall c | c in pat :: !IsFreeVowel(c)
    ensures pat <= s <==> pat <= t
  {
    if |pat| <= |s| {
      if pat <= s {
        forall i | 0 <= i < |pat| ensures t[i] == pat[i] {
          assert s[i] == pat[i];
        }
      }
      if pat <= t {
        forall i | 0 <= i < |pat| ensures s[i] == pat[i] {
          assert t[i] == pat[i];
        }
      }
    }
  }

  /** Replacing a pattern without free vowels keeps two variants variants. */
  lemma {:induction false} ReplaceAllVariant(s: string, t: string, pat: string, rep: string)
    requires |pat| > 0
    requires forall c | c in pat :: !IsFreeVowel(c)
    requires VowelVariant(s, t)
    ensures VowelVariant(ReplaceAll(s, pat, rep), ReplaceAll(t, pat, rep))
    decreases |s|
  {
    if |s| >= |pat| {
      VariantPrefix(s, t, pat);
      if pat <= s {
        ReplaceAllVariant(s[|pat|..], t[|pat|..], pat, rep);
        VariantConcat(rep, ReplaceAll(s[|pat|..], pat, rep), rep, ReplaceAll(t[|pat|..], pat, rep));
      } else {
        ReplaceAllVariant(s[1..], t[1..], pat, rep);
        VariantConcat([s[0]], ReplaceAll(s[1..], pat, rep), [t[0]], ReplaceAll(t[1..], pat, rep));
      }
    }
  }

  lemma SubstituteVariant(s: string, t: string)
    requires VowelVariant(s, t)
    ensures VowelVariant(Substitute(s), Substitute(t))
  {
    var s1, t1 := ReplaceAll(s, "ph", "f"), ReplaceAll(t, "ph", "f");
    ReplaceAllVariant(s, t, "ph", "f");
    var s2, t2 := ReplaceAll(s1, "qu", "k"), ReplaceAll(t1, "qu", "k");
    ReplaceAllVariant(s1, t1, "qu", "k");
    var s3, t3 := ReplaceAll(s2, "ck", "k"), ReplaceAll(t2, "ck", "k");
    ReplaceAllVariant(s2, t2, "ck", "k");
    var s4, t4 := ReplaceAll(s3, "c", "k"), ReplaceAll(t3, "c", "k");
    ReplaceAllVariant(s3, t3, "c", "k");
    var s5, t5 := ReplaceAll(s4, "q", "k"), ReplaceAll(t4, "q", "k");
    ReplaceAllVariant(s4, t4, "q", "k");
    var s6, t6 := ReplaceAll(s5, "z", "s"), ReplaceAll(t5, "z", "s");
    ReplaceAllVariant(s5, t5, "z", "s");
    ReplaceAllVariant(s6, t6, "v", "f");
  }

  lemma {:induction false} RemoveSpacesVariant(s: string, t: string)
    requires VowelVariant(s, t)
    ensures VowelVariant(Filter(NotSpace, s), Filter(NotSpace, t))
    decreases |s|
  {
    if |s| > 0 {
      RemoveSpacesVariant(s[1..], t[1..]);
      assert s == [s[0]] + s[1..] && t == [t[0]] + t[1..];
      FilterCons(NotSpace, s[0], s[1..]);
      FilterCons(NotSpace, t[0], t[1..]);
      var hs: string := if NotSpace(s[0]) then [s[0]] else [];
      var ht: string := if NotSpace(t[0]) then [t[0]] else [];
      VariantConcat(hs, Filter(NotSpace, s[1..]), ht, Filter(NotSpace, t[1..]));
    }
  }

  lemma {:induction false} DropVowelsVariant(s: string, t: string)
    requires VowelVariant(s, t)
    ensures DropVowels(s) == DropVowels(t)
    decreases |s|
  {
    if |s| > 0 {
      DropVowelsVariant(s[1..], t[1..]);
      assert s == [s[0]] + s[1..] && t == [t[0]] + t[1..];
      FilterCons(NotVowel, s[0], s[1..]);
      FilterCons(NotVowel, t[0], t[1..]);
    }
  }

  /**
   * Swapping vowels other than `u` for one another, as a recogniser does
   * when it hears "prusa" as "prose", leaves the skeleton unchanged.
   */
  lemma SkeletonVowelBlind(text: string, text': string)
    requires VowelVariant(Normalize(text), Normalize(text'))
    ensures Skeleton(text) == Skeleton(text')
  {
    var t, t' := Normalize(text), Normalize(text');
    if t != "" {
      RemoveSpacesVariant(t, t');
      SubstituteVariant(RemoveSpaces(t), RemoveSpaces(t'));
      DropVowelsVariant(Substitute(RemoveSpaces(t)), Substitute(RemoveSpaces(t')));
    }
  }
}
