/**
 * Text normalisation (`normalize_text`) and the string helpers the engine is
 * built on: Python's `str.split()` / `" ".join(...)` on normalised text,
 * substring and suffix tests, `str.replace(" ", "")` and `str.strip()`.
 */
module Text {

  /** The characters `normalize_text` keeps: ASCII lower-case letters and digits. */
  predicate IsWordChar(c: char) {
    ('a' <= c <= 'z') || ('0' <= c <= '9')
  }

  /** A non-empty run of kept characters: one token of normalised text. */
  predicate IsWord(w: string) {
    |w| > 0 && forall i | 0 <= i < |w| :: IsWordChar(w[i])
  }

  predicate AllWords(ws: seq<string>) {
    forall i | 0 <= i < |ws| :: IsWord(ws[i])
  }

  /**
   * The elements of `s` that satisfy `keep`, in their order and with their
   * repeats: Python's `[x for x in s if keep(x)]`.
   */
  function Filter<T>(keep: T -> bool, s: seq<T>): seq<T>
  {
    if |s| == 0 then [] else (if keep(s[0]) then [s[0]] else []) + Filter(keep, s[1..])
  }

  lemma FilterCons<T>(keep: T -> bool, x: T, s: seq<T>)
    ensures Filter(keep, [x] + s) == (if keep(x) then [x] else []) + Filter(keep, s)
  {
    assert ([x] + s)[1..] == s;
  }

  /**
   * Filtering distributes over concatenation: the result is the filtered
   * elements one by one, in order.
   */
  lemma {:induction false} FilterConcat<T>(keep: T -> bool, a: seq<T>, b: seq<T>)
    ensures Filter(keep, a + b) == Filter(keep, a) + Filter(keep, b)
  {
    if |a| == 0 {
      assert a + b == b;
    } else {
      var x, a' := a[0], a[1..];
      var head: seq<T> := if keep(x) then [x] else [];
      assert a == [x] + a';
      calc {
        Filter(keep, a + b);
        { assert a + b == [x] + (a' + b); }
        Filter(keep, [x] + (a' + b));
        { FilterCons(keep, x, a' + b); }
        head + Filter(keep, a' + b);
        { FilterConcat(keep, a', b); }
        head + (Filter(keep, a') + Filter(keep, b));
        (head + Filter(keep, a')) + Filter(keep, b);
        { FilterCons(keep, x, a'); }
        Filter(keep, a) + Filter(keep, b);
      }
    }
  }

  /** An element is kept exactly when it occurs and satisfies `keep`. */
  lemma {:induction false} FilterMembers<T>(keep: T -> bool, s: seq<T>)
    ensures |Filter(keep, s)| <= |s|
    ensures forall x :: x in Filter(keep, s) <==> x in s && keep(x)
  {
    if |s| > 0 {
      FilterMembers(keep, s[1..]);
      assert s == [s[0]] + s[1..];
    }
  }

  /** When every element satisfies `keep`, nothing is removed. */
  lemma {:induction false} FilterAll<T>(keep: T -> bool, s: seq<T>)
    ensures (forall i | 0 <= i < |s| :: keep(s[i])) ==> Filter(keep, s) == s
  {
    if |s| > 0 && forall i | 0 <= i < |s| :: keep(s[i]) {
      FilterAll(keep, s[1..]);
      assert s == [s[0]] + s[1..];
    }
  }

  /** Filtering a filtered sequence again removes nothing more. */
  lemma FilterIdempotent<T>(keep: T -> bool, s: seq<T>)
    ensures Filter(keep, Filter(keep, s)) == Filter(keep, s)
  {
    FilterKept(keep, s);
    FilterAll(keep, Filter(keep, s));
  }

  /** Every element of the result satisfies `keep`. */
  lemma {:induction false} FilterKept<T>(keep: T -> bool, s: seq<T>)
    ensures forall i | 0 <= i < |Filter(keep, s)| :: keep(Filter(keep, s)[i])
  {
    if |s| > 0 {
      FilterKept(keep, s[1..]);
      var head: seq<T> := if keep(s[0]) then [s[0]] else [];
      var r := Filter(keep, s);
      assert r == head + Filter(keep, s[1..]);
      forall i | 0 <= i < |r| ensures keep(r[i]) {
        if i >= |head| {
          assert r[i] == Filter(keep, s[1..])[i - |head|];
        }
      }
    }
  }

  /** Filtering a list of tokens leaves a list of tokens. */
  lemma FilterAllWords(keep: string -> bool, ws: seq<string>)
    requires AllWords(ws)
    ensures AllWords(Filter(keep, ws))
  {
    var r := Filter(keep, ws);
    FilterMembers(keep, ws);
    forall i | 0 <= i < |r| ensures IsWord(r[i]) {
      var w := r[i];
      assert w in r;
      assert w in ws;
    }
  }

  /**
   * Normalised text: only `a-z`, `0-9` and spaces, no leading or trailing
   * space, and every space followed by a kept character (so no two spaces).
   */
  predicate IsNormalized(t: string) {
    && (forall i | 0 <= i < |t| :: IsWordChar(t[i]) || t[i] == ' ')
    && (|t| > 0 ==> IsWordChar(t[0]) && IsWordChar(t[|t| - 1]))
    && (forall i, j | 0 <= i && j == i + 1 < |t| :: t[i] == ' ' ==> IsWordChar(t[j]))
  }

  /**
   * Lower-casing followed by compatibility decomposition with the combining
   * marks dropped, for one character: ASCII capitals, the accented letters of
   * Latin-1 and the Latin-1 ordinal and superscript signs. Every other
   * character is returned unchanged.
   */
  function Fold(c: char): (d: char)
    ensures IsWordChar(c) || c == ' ' ==> d == c
    ensures d == c || IsWordChar(d)
  {
    if 'A' <= c <= 'Z' then (c as int - 'A' as int + 'a' as int) as char
    else if '\U{C0}' <= c <= '\U{C5}' || '\U{E0}' <= c <= '\U{E5}' || c == '\U{AA}' then 'a'
    else if c == '\U{C7}' || c == '\U{E7}' then 'c'
    else if '\U{C8}' <= c <= '\U{CB}' || '\U{E8}' <= c <= '\U{EB}' then 'e'
    else if '\U{CC}' <= c <= '\U{CF}' || '\U{EC}' <= c <= '\U{EF}' || c == '\U{130}' then 'i'
    else if c == '\U{D1}' || c == '\U{F1}' then 'n'
    else if '\U{D2}' <= c <= '\U{D6}' || '\U{F2}' <= c <= '\U{F6}' || c == '\U{BA}' then 'o'
    else if '\U{D9}' <= c <= '\U{DC}' || '\U{F9}' <= c <= '\U{FC}' then 'u'
    else if c == '\U{DD}' || c == '\U{FD}' || c == '\U{FF}' || c == '\U{178}' then 'y'
    else if c == '\U{B9}' then '1'
    else if c == '\U{B2}' then '2'
    else if c == '\U{B3}' then '3'
    else c
  }

  function FoldAll(s: string): (r: string)
    ensures |r| == |s|
    ensures forall i | 0 <= i < |s| :: r[i] == Fold(s[i])
  {
    seq(|s|, i requires 0 <= i < |s| => Fold(s[i]))
  }

  /**
   * The combining marks `normalize_text` deletes after decomposition: the
   * Combining Diacritical Marks block, except the grapheme joiner U+034F,
   * whose combining class is 0.
   */
  predicate IsCombiningMark(c: char) {
    '\U{300}' <= c <= '\U{36F}' && c != '\U{34F}'
  }

  predicate NotMark(c: char) {
    !IsCombiningMark(c)
  }

  /** Delete every combining mark, keeping the other characters in order. */
  function DropMarks(s: string): string
  {
    Filter(NotMark, s)
  }

  /** Length of the run of kept characters at the start of `s`. */
  function RunLength(s: string): (n: nat)
    ensures n <= |s|
    ensures forall i | 0 <= i < n :: IsWordChar(s[i])
    ensures n < |s| ==> !IsWordChar(s[n])
  {
    if |s| == 0 || !IsWordChar(s[0]) then 0 else 1 + RunLength(s[1..])
  }

  /**
   * The maximal runs of kept characters, left to right. On normalised text
   * this is exactly Python's `str.split()`.
   */
  function Words(s: string): (ws: seq<string>)
    ensures AllWords(ws)
    decreases |s|
  {
    if |s| == 0 then []
    else if !IsWordChar(s[0]) then Words(s[1..])
    else
      var n := RunLength(s);
      [s[..n]] + Words(s[n..])
  }

  /** `" ".join(ws)`. */
  function JoinSpace(ws: seq<string>): string
  {
    if |ws| == 0 then ""
    else if |ws| == 1 then ws[0]
    else ws[0] + " " + JoinSpace(ws[1..])
  }

  /**
   * `normalize_text`: fold case and accents, delete combining marks, turn
   * every run of characters other than `a-z0-9` into one separating space,
   * and trim.
   */
  function Normalize(text: string): (t: string)
    ensures IsNormalized(t)
  {
    var folded := DropMarks(FoldAll(text));
    JoinWordsNormalized(Words(folded));
    JoinSpace(Words(folded))
  }

  lemma {:induction false} JoinWordsNormalized(ws: seq<string>)
    requires AllWords(ws)
    ensures IsNormalized(JoinSpace(ws))
    ensures |ws| > 0 ==> |JoinSpace(ws)| > 0
  {
    if |ws| > 1 {
      JoinWordsNormalized(ws[1..]);
      var w, rest := ws[0], JoinSpace(ws[1..]);
      var t := w + " " + rest;
      assert IsWord(w);
      assert forall i | 0 <= i < |w| :: t[i] == w[i];
      assert forall i | |w| < i < |t| :: t[i] == rest[i - |w| - 1];
    }
  }

  /** A word followed by a separator and more text splits off as the first token. */
  lemma WordsCons(w: string, sep: char, rest: string)
    requires IsWord(w)
    requires !IsWordChar(sep)
    ensures Words(w + [sep] + rest) == [w] + Words(rest)
  {
    var s := w + [sep] + rest;
    var n := RunLength(s);
    assert s[|w|] == sep;
    assert forall i | 0 <= i < |w| :: s[i] == w[i];
    assert n == |w|;
    assert s[..n] == w;
    assert s[n..][1..] == rest;
  }

  /** Splitting a single word yields that word. */
  lemma WordsSingle(w: string)
    requires IsWord(w)
    ensures Words(w) == [w]
  {
    assert RunLength(w) == |w|;
    assert w[..|w|] == w;
    assert w[|w|..] == [];
  }

  /** Splitting undoes joining: `" ".join(ws).split() == ws` for tokens `ws`. */
  lemma {:induction false} SplitJoin(ws: seq<string>)
    requires AllWords(ws)
    ensures Words(JoinSpace(ws)) == ws
  {
    if |ws| == 1 {
      WordsSingle(ws[0]);
    } else if |ws| > 1 {
      SplitJoin(ws[1..]);
      WordsCons(ws[0], ' ', JoinSpace(ws[1..]));
      assert ws[0] + " " + JoinSpace(ws[1..]) == ws[0] + [' '] + JoinSpace(ws[1..]);
    }
  }

  /** Joining undoes splitting on normalised text: `" ".join(t.split()) == t`. */
  lemma {:induction false} JoinSplit(t: string)
    requires IsNormalized(t)
    ensures JoinSpace(Words(t)) == t
    ensures |t| > 0 ==> |Words(t)| > 0
    decreases |t|
  {
    if |t| > 0 {
      var n := RunLength(t);
      FirstWord(t);
      if n == |t| {
        assert t[..n] == t;
        WordsSingle(t);
      } else {
        var rest := t[n + 1..];
        JoinSplit(rest);
        WordsCons(t[..n], ' ', rest);
      }
    }
  }

  /** Non-empty normalised text is a word, then possibly a space and more normalised text. */
  lemma FirstWord(t: string)
    requires IsNormalized(t) && |t| > 0
    ensures var n := RunLength(t);
            && IsWord(t[..n])
            && (n < |t| ==> t[n] == ' ' && IsNormalized(t[n + 1..]) && t == t[..n] + [' '] + t[n + 1..])
  {
    var n := RunLength(t);
    assert IsWordChar(t[0]);
    if n < |t| {
      assert t[n] == ' ';
      NormalizedAfterSpace(t, n + 1);
      SplitAround(t, n);
    }
  }

  /** A string is its part before index `n`, the character at `n` and the part after. */
  lemma SplitAround(t: string, n: nat)
    requires n < |t|
    ensures t == t[..n] + [t[n]] + t[n + 1..]
  {
    assert t[..n + 1] == t[..n] + [t[n]];
  }

  /** The text after a space of normalised text is normalised. */
  lemma NormalizedAfterSpace(t: string, k: nat)
    requires IsNormalized(t)
    requires 0 < k < |t| && t[k - 1] == ' '
    ensures IsNormalized(t[k..])
  {
    var r := t[k..];
    assert IsWordChar(r[0]) by {
      assert t[k - 1] == ' ' ==> IsWordChar(t[k]);
    }
    assert r[|r| - 1] == t[|t| - 1];
    forall i | 0 <= i < |r|
      ensures IsWordChar(r[i]) || r[i] == ' '
    {
      assert r[i] == t[k + i];
    }
    forall i, j | 0 <= i && j == i + 1 < |r|
      ensures r[i] == ' ' ==> IsWordChar(r[j])
    {
      assert r[i] == t[k + i] && r[j] == t[k + j];
    }
  }

  /** Normalised text is exactly the text `normalize_text` leaves unchanged. */
  lemma NormalizeFixpoint(t: string)
    ensures Normalize(t) == t <==> IsNormalized(t)
  {
    if IsNormalized(t) {
      assert FoldAll(t) == t;
      FilterAll(NotMark, t);
      JoinSplit(t);
    }
  }

  /** `normalize_text` is idempotent. */
  lemma NormalizeIdempotent(s: string)
    ensures Normalize(Normalize(s)) == Normalize(s)
  {
    NormalizeFixpoint(Normalize(s));
  }

  /**
   * A combining mark anywhere in the input, such as an accent typed after
   * its letter, does not change the normalised text.
   */
  lemma NormalizeIgnoresMark(a: string, m: char, b: string)
    requires IsCombiningMark(m)
    ensures Normalize(a + [m] + b) == Normalize(a + b)
  {
    assert FoldAll(a + [m] + b) == FoldAll(a) + [m] + FoldAll(b);
    assert FoldAll(a + b) == FoldAll(a) + FoldAll(b);
    DropMarksSkips(FoldAll(a), m, FoldAll(b));
  }

  /** Deleting marks skips a mark between two texts. */
  lemma DropMarksSkips(a: string, m: char, b: string)
    requires IsCombiningMark(m)
    ensures DropMarks(a + [m] + b) == DropMarks(a + b)
  {
    FilterConcat(NotMark, a + [m], b);
    FilterConcat(NotMark, a, [m]);
    FilterConcat(NotMark, a, b);
    assert Filter(NotMark, [m]) == [];
    assert a + [m] == a + [m] + [];
  }

  /**
   * Case and accent folding of one character: the text normalises as if
   * that character had been typed already folded (`É` as `e`).
   */
  lemma NormalizeFold(a: string, c: char, b: string)
    ensures Normalize(a + [c] + b) == Normalize(a + [Fold(c)] + b)
  {
    assert Fold(Fold(c)) == Fold(c);
    assert FoldAll(a + [c] + b) == FoldAll(a) + [Fold(c)] + FoldAll(b);
    assert FoldAll(a + [Fold(c)] + b) == FoldAll(a) + [Fold(Fold(c))] + FoldAll(b);
  }

  /**
   * A character that folds to neither a kept character nor a combining mark
   * (punctuation, a symbol, a tab) separates tokens exactly like a space.
   */
  lemma NormalizeSeparator(a: string, c: char, b: string)
    requires !IsWordChar(Fold(c)) && !IsCombiningMark(Fold(c))
    ensures Normalize(a + [c] + b) == Normalize(a + " " + b)
  {
    var fa, fb := FoldAll(a), FoldAll(b);
    assert FoldAll(a + [c] + b) == fa + [Fold(c)] + fb;
    assert FoldAll(a + " " + b) == fa + [' '] + fb;
    DropMarksKeeps(fa, Fold(c), fb);
    DropMarksKeeps(fa, ' ', fb);
    WordsSeparator(DropMarks(fa), Fold(c), ' ', DropMarks(fb));
  }

  /** Deleting marks keeps a character that is not one between two texts. */
  lemma DropMarksKeeps(a: string, f: char, b: string)
    requires !IsCombiningMark(f)
    ensures DropMarks(a + [f] + b) == DropMarks(a) + [f] + DropMarks(b)
  {
    FilterConcat(NotMark, a + [f], b);
    FilterConcat(NotMark, a, [f]);
    FilterCons(NotMark, f, []);
    assert [f] + [] == [f];
  }

  /** A run of kept characters ends at the first separator. */
  lemma {:induction false} RunLengthStops(x: string, d: char, y: string)
    requires !IsWordChar(d)
    ensures RunLength(x + [d] + y) == RunLength(x)
    decreases |x|
  {
    var s := x + [d] + y;
    if |x| == 0 {
      assert s[0] == d;
    } else if IsWordChar(x[0]) {
      assert s[1..] == x[1..] + [d] + y;
      RunLengthStops(x[1..], d, y);
    }
  }

  /** Any two separators split text into the same tokens. */
  lemma {:induction false} WordsSeparator(x: string, d: char, e: char, y: string)
    requires !IsWordChar(d) && !IsWordChar(e)
    ensures Words(x + [d] + y) == Words(x + [e] + y)
    decreases |x|
  {
    var s, t := x + [d] + y, x + [e] + y;
    if |x| == 0 {
      assert s[1..] == y && t[1..] == y;
    } else if !IsWordChar(x[0]) {
      assert s[1..] == x[1..] + [d] + y && t[1..] == x[1..] + [e] + y;
      WordsSeparator(x[1..], d, e, y);
    } else {
      RunLengthStops(x, d, y);
      RunLengthStops(x, e, y);
      var n := RunLength(x);
      assert s[..n] == x[..n] && t[..n] == x[..n];
      assert s[n..] == x[n..] + [d] + y && t[n..] == x[n..] + [e] + y;
      WordsSeparator(x[n..], d, e, y);
    }
  }

  /** A single word typed with a leading capital or accented letter normalises to its folded form. */
  lemma NormalizeFoldedWord(c: char, w: string)
    requires IsWord([Fold(c)] + w)
    ensures Normalize([c] + w) == [Fold(c)] + w
  {
    NormalizeFold("", c, w);
    assert "" + [c] + w == [c] + w;
    assert "" + [Fold(c)] + w == [Fold(c)] + w;
    WordNormalized([Fold(c)] + w);
    NormalizeFixpoint([Fold(c)] + w);
  }

  /** A token is normalised text. */
  lemma WordNormalized(w: string)
    requires IsWord(w)
    ensures IsNormalized(w)
  {
  }

  /** A worked case: an accented capital folds to its plain lower-case letter. */
  lemma NormalizeAccented(s: string)
    requires s == "\U{C9}diteur"
    ensures Normalize(s) == "editeur"
  {
    var w := s[1..];
    assert s == [s[0]] + w;
    assert Fold(s[0]) == 'e';
    assert [Fold(s[0])] + w == "editeur";
    NormalizeFoldedWord(s[0], w);
  }

  /** Two tokens around a separator normalise to the tokens joined by one space. */
  lemma NormalizeSeparatedWords(u: string, c: char, w: string)
    requires IsWord(u) && IsWord(w)
    requires !IsWordChar(Fold(c)) && !IsCombiningMark(Fold(c))
    ensures Normalize(u + [c] + w) == u + " " + w
  {
    NormalizeSeparator(u, c, w);
    JoinWordsNormalized([u, w]);
    assert JoinSpace([u, w]) == u + " " + w;
    NormalizeFixpoint(u + " " + w);
  }

  /** A worked case: punctuation between two words becomes one space. */
  lemma NormalizePunctuation(s: string)
    requires s == "a,b"
    ensures Normalize(s) == "a b"
  {
    var u, w := s[..1], s[2..];
    assert s == u + [s[1]] + w;
    assert Fold(s[1]) == ',';
    NormalizeSeparatedWords(u, s[1], w);
    assert u + " " + w == "a b";
  }

  /** Python's `needle in hay` on strings. */
  predicate Contains(hay: string, needle: string)
    decreases |hay|
  {
    needle <= hay || (|hay| > 0 && Contains(hay[1..], needle))
  }

  /** Python's `s.endswith(suffix)`. */
  predicate EndsWith(s: string, suffix: string) {
    |suffix| <= |s| && s[|s| - |suffix|..] == suffix
  }

  predicate NotSpace(c: char) {
    c != ' '
  }

  /** `s.replace(" ", "")`: the characters other than spaces, in order. */
  function RemoveSpaces(s: string): (r: string)
    ensures |r| <= |s|
    ensures ' ' !in r
    ensures forall c :: c in r <==> c in s && c != ' '
    ensures ' ' !in s ==> r == s
  {
    FilterMembers(NotSpace, s);
    FilterAll(NotSpace, s);
    Filter(NotSpace, s)
  }

  /**
   * Removing spaces distributes over concatenation; with the contract's
   * single-character cases (a space goes, any other character stays) this
   * determines the function.
   */
  lemma RemoveSpacesConcat(a: string, b: string)
    ensures RemoveSpaces(a + b) == RemoveSpaces(a) + RemoveSpaces(b)
  {
    FilterConcat(NotSpace, a, b);
  }

  /** The characters Python's `str.strip()` removes (`str.isspace`). */
  predicate IsPySpace(c: char) {
    c == ' ' || '\t' <= c <= '\r' || '\U{1C}' <= c <= '\U{1F}' || c == '\U{85}' || c == '\U{A0}'
    || c == '\U{1680}' || '\U{2000}' <= c <= '\U{200A}' || c == '\U{2028}' || c == '\U{2029}'
    || c == '\U{202F}' || c == '\U{205F}' || c == '\U{3000}'
  }

  predicate AllPySpace(s: string) {
    forall i | 0 <= i < |s| :: IsPySpace(s[i])
  }

  /** Every character of `s` before `i` and from `j` on is whitespace. */
  predicate SpaceOutside(s: string, i: int, j: int) {
    (forall k | 0 <= k < i && k < |s| :: IsPySpace(s[k])) && (forall k | j <= k < |s| && 0 <= k :: IsPySpace(s[k]))
  }

  /** `r` is `s` with some whitespace removed at its start and some at its end. */
  predicate TrimmedFrom(r: string, s: string) {
    exists i, j | 0 <= i <= j <= |s| :: r == s[i..j] && SpaceOutside(s, i, j)
  }

  lemma TrimmedFromSelf(s: string)
    ensures TrimmedFrom(s, s)
  {
    assert s == s[0..|s|] && SpaceOutside(s, 0, |s|);
  }

  /** Trimming may also remove a leading whitespace character. */
  lemma TrimmedFromFirst(r: string, s: string)
    requires |s| > 0 && IsPySpace(s[0])
    requires TrimmedFrom(r, s[1..])
    ensures TrimmedFrom(r, s)
  {
    var t := s[1..];
    var i, j :| 0 <= i <= j <= |t| && r == t[i..j] && SpaceOutside(t, i, j);
    assert r == s[i + 1..j + 1];
    assert forall k | 1 <= k < |s| :: s[k] == t[k - 1];
    assert SpaceOutside(s, i + 1, j + 1);
  }

  /** Trimming may also remove a trailing whitespace character. */
  lemma TrimmedFromLast(r: string, s: string)
    requires |s| > 0 && IsPySpace(s[|s| - 1])
    requires TrimmedFrom(r, s[..|s| - 1])
    ensures TrimmedFrom(r, s)
  {
    var t := s[..|s| - 1];
    var i, j :| 0 <= i <= j <= |t| && r == t[i..j] && SpaceOutside(t, i, j);
    assert r == s[i..j];
    assert forall k | 0 <= k < |t| :: s[k] == t[k];
    assert SpaceOutside(s, i, j);
  }

  /**
   * `s.strip()`: `s` without the whitespace at both ends; the result starts
   * and ends with a non-whitespace character, or is empty.
   */
  function Strip(s: string): (r: string)
    ensures r == "" || (!IsPySpace(r[0]) && !IsPySpace(r[|r| - 1]))
    ensures r == "" <==> AllPySpace(s)
    ensures TrimmedFrom(r, s)
    decreases |s|
  {
    if |s| == 0 then
      TrimmedFromSelf(s);
      ""
    else if IsPySpace(s[0]) then
      var r := Strip(s[1..]);
      TrimmedFromFirst(r, s);
      assert AllPySpace(s) <==> AllPySpace(s[1..]) by {
        assert forall k | 1 <= k < |s| :: s[k] == s[1..][k - 1];
      }
      r
    else if IsPySpace(s[|s| - 1]) then
      var r := Strip(s[..|s| - 1]);
      TrimmedFromLast(r, s);
      assert !AllPySpace(s) && !AllPySpace(s[..|s| - 1]) by {
        assert s[..|s| - 1][0] == s[0];
      }
      r
    else
      TrimmedFromSelf(s);
      s
  }

  /** Stripping twice is stripping once. */
  lemma StripIdempotent(s: string)
    ensures Strip(Strip(s)) == Strip(s)
  {
    var r := Strip(s);
    if r != "" {
      assert !IsPySpace(r[0]) && !IsPySpace(r[|r| - 1]);
    }
  }
}
