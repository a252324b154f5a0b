/**
 * Alias generation for configured applications (`_plural_toggle`,
 * `_tokens_variants`, `_generate_app_aliases`) and the flat alias catalogue
 * built from the configuration (`build_apps_map`).
 */
module Aliases {
  import opened Options
  import opened Assoc
  import opened Text

  /** French articles a speaker may put before an application name. */
  const AppArticles: seq<string> := ["le", "la", "les", "un", "une", "du", "de", "des", "mon", "ma", "mes"]

  /** Role words that may be dropped from a name ("brave browser" is also "brave"). */
  const RoleWords: set<string> := {
    "browser", "navigateur", "client", "launcher", "slicer", "sliceur", "editor", "editeur"
  }

  /** Qualifiers added around the base name of a browser. */
  const BrowserWords: seq<string> := ["browser", "navigateur", "navigateur web"]

  /** Qualifiers added around the base name of a slicer. */
  const SlicerWords: seq<string> := ["slicer", "sliceur"]

  /** `_plural_toggle`: a token with its trailing `s` added or removed, tokens of two letters or less as they are. */
  function PluralToggle(token: string): (r: set<string>)
    ensures token in r
    ensures forall u | u in r :: u == token || (|token| > 2 && (u + "s" == token || u == token + "s"))
    ensures |token| > 2 ==> |r| == 2
    ensures |token| > 2 ==> (token[|token| - 1] == 's' <==> token[..|token| - 1] in r)
  {
    if |token| <= 2 then {token}
    else if token[|token| - 1] == 's' then
      assert token[..|token| - 1] + "s" == token;
      assert token[..|token| - 1] != token;
      {token, token[..|token| - 1]}
    else
      assert token + "s" != token;
      {token, token + "s"}
  }

  /**
   * Toggling is undone by toggling again, for forms longer than two letters,
   * unless removing an `s` left another trailing `s` ("bass", "bas", "ba").
   */
  lemma PluralToggleInverse(token: string, u: string)
    requires u in PluralToggle(token)
    requires |u| > 2
    requires u[|u| - 1] == 's' ==> u == token + "s"
    ensures token in PluralToggle(u)
  {
    if u != token {
      if u == token + "s" {
        assert u[|u| - 1] == 's' && u[..|u| - 1] == token;
      } else {
        assert u + "s" == token;
        assert PluralToggle(u) == {u, u + "s"};
      }
    }
  }

  /** `_tokens_variants`: every choice of one toggle form per token, joined with spaces. */
  function TokensVariants(tokens: seq<string>): (r: set<string>)
    ensures |tokens| == 0 <==> r == {}
    decreases |tokens|
  {
    if |tokens| == 0 then {}
    else if |tokens| == 1 then PluralToggle(tokens[0])
    else
      var rest := TokensVariants(tokens[1..]);
      var r := set a, b | a in PluralToggle(tokens[0]) && b in rest :: a + " " + b;
      var some :| some in rest;
      assert tokens[0] + " " + some in r;
      r
  }

  /** `ts` picks, for each token, one of its toggle forms. */
  predicate IsToggleChoice(ts: seq<string>, tokens: seq<string>) {
    |ts| == |tokens| && forall i | 0 <= i < |ts| :: ts[i] in PluralToggle(tokens[i])
  }

  /** Every joined choice of toggle forms is a variant (the Cartesian product is complete). */
  lemma {:induction false} TokensVariantsComplete(ts: seq<string>, tokens: seq<string>)
    requires |tokens| > 0
    requires IsToggleChoice(ts, tokens)
    ensures JoinSpace(ts) in TokensVariants(tokens)
    decreases |tokens|
  {
    if |tokens| > 1 {
      TokensVariantsComplete(ts[1..], tokens[1..]);
      assert ts[0] in PluralToggle(tokens[0]);
    }
  }

  /** Every variant is a joined choice of toggle forms (the Cartesian product is sound). */
  lemma {:induction false} TokensVariantsSound(v: string, tokens: seq<string>)
    requires v in TokensVariants(tokens)
    ensures exists ts :: IsToggleChoice(ts, tokens) && JoinSpace(ts) == v
    decreases |tokens|
  {
    if |tokens| == 1 {
      assert IsToggleChoice([v], tokens) && JoinSpace([v]) == v;
    } else {
      var a, b :| a in PluralToggle(tokens[0]) && b in TokensVariants(tokens[1..]) && v == a + " " + b;
      TokensVariantsSound(b, tokens[1..]);
      var ts' :| IsToggleChoice(ts', tokens[1..]) && JoinSpace(ts') == b;
      var ts := [a] + ts';
      assert ts[1..] == ts';
      assert IsToggleChoice(ts, tokens);
      assert JoinSpace(ts) == v;
    }
  }

  /** The phrase itself is one of its own variants. */
  lemma TokensVariantsIdentity(tokens: seq<string>)
    requires |tokens| > 0
    ensures JoinSpace(tokens) in TokensVariants(tokens)
  {
    TokensVariantsComplete(tokens, tokens);
  }

  predicate NotRoleWord(w: string) {
    w !in RoleWords
  }

  /** The tokens of `tokens` that are not role words, in order and with their repeats. */
  function DropRoleWords(tokens: seq<string>): (r: seq<string>)
    ensures forall w :: w in r <==> w in tokens && w !in RoleWords
    ensures (forall i | 0 <= i < |tokens| :: tokens[i] !in RoleWords) ==> r == tokens
  {
    FilterMembers(NotRoleWord, tokens);
    FilterAll(NotRoleWord, tokens);
    Filter(NotRoleWord, tokens)
  }

  /**
   * Dropping role words distributes over concatenation; with the contract's
   * single-token cases this determines the function.
   */
  lemma DropRoleWordsConcat(a: seq<string>, b: seq<string>)
    ensures DropRoleWords(a + b) == DropRoleWords(a) + DropRoleWords(b)
  {
    FilterConcat(NotRoleWord, a, b);
  }

  /** `base` followed by, and preceded by, each qualifier. */
  function Qualified(base: string, words: seq<string>): set<string> {
    (set w | w in words :: base + " " + w) + (set w | w in words :: w + " " + base)
  }

  /** Names recognised as browsers. */
  predicate IsBrowser(key: string, tokens: seq<string>) {
    key in {"firefox", "chromium", "brave", "brave browser"} || "browser" in tokens || "navigateur" in tokens
  }

  /** Names recognised as slicers. */
  predicate IsSlicer(key: string, tokens: seq<string>) {
    "slicer" in tokens || "sliceur" in tokens || Contains(key, "slicer") || Contains(key, "sliceur")
  }

  /** Hand-written aliases for known applications, covering common mis-transcriptions. */
  function BrandAliases(key: string): set<string> {
    (if key in {"chromium"} then {"chrome", "google chrome", "chrom"} else {})
    + (if key in {"brave", "brave browser"} then {"brave", "brave navigateur", "navigateur brave"} else {})
    + (if key in {"lunar client", "lunar-client", "lunarclient", "lunar"}
       then {"lunar", "lunar clients", "lunare client", "lunare cliants", "lunaire client"} else {})
    + (if key in {"prism launcher", "prismlauncher"} then {"prism", "prisme launcher", "prisme", "prismlauncher"} else {})
    + (if key in {"prusa slicer", "prusa"} then {"prusa", "prusa sliceur", "prusa slicer"} else {})
    + (if key in {"orca slicer", "orca"} then {"orca", "orca sliceur", "orca slicer"} else {})
    + (if key in {"libreoffice", "libre office"}
       then {"libreoffice", "libre office", "libre office writer", "libre office calc"} else {})
    + (if key in {"onlyoffice", "only office"}
       then {"onlyoffice", "only office", "onmly office", "only ofice", "only ofis"} else {})
    + (if key in {"discord"} then {"discorde", "discor", "dis code"} else {})
    + (if key in {"shotcut"} then {"shot cut", "shotcut", "short cut"} else {})
  }

  /** The raw variants of a non-empty normalised key, before the final normalisation. */
  function RawVariants(key: string): (vs: set<string>)
    ensures key in vs && RemoveSpaces(key) in vs
    ensures forall art | art in AppArticles :: art + " " + key in vs
    ensures TokensVariants(Words(key)) <= vs
  {
    var tokens := Words(key);
    var baseTokens := DropRoleWords(tokens);
    var base := if |baseTokens| > 0 then JoinSpace(baseTokens) else key;
    {key, RemoveSpaces(key)}
    + (set art | art in AppArticles :: art + " " + key)
    + TokensVariants(tokens)
    + (if base != "" && base != key then {base, RemoveSpaces(base)} else {})
    + (if IsBrowser(key, tokens) then Qualified(base, BrowserWords) else {})
    + (if IsSlicer(key, tokens) then Qualified(base, SlicerWords) else {})
    + (if |tokens| >= 2 then {tokens[0], JoinSpace(tokens[..2]), JoinSpace(tokens[|tokens| - 2..])} else {})
    + BrandAliases(key)
  }

  /** Normalise every variant and drop the empty ones. */
  function NormalizeAll(vs: set<string>): (r: set<string>)
    ensures forall v | v in r :: v != "" && IsNormalized(v)
  {
    (set v | v in vs :: Normalize(v)) - {""}
  }

  /**
   * `_generate_app_aliases`: the variants of the normalised key, each
   * normalised again, empties dropped.
   */
  function GenerateAliases(canonicalKey: string): (r: set<string>)
    ensures forall v | v in r :: v != "" && IsNormalized(v)
    ensures var key := Normalize(canonicalKey);
            && (key == "" ==> r == {})
            && (key != "" ==> key in r && RemoveSpaces(key) in r)
            && (key != "" ==> forall art | art in AppArticles :: art + " " + key in r)
            && (key != "" ==> TokensVariants(Words(key)) <= r)
  {
    var key := Normalize(canonicalKey);
    if key == "" then {}
    else
      BaseFormsKept(key);
      ArticleFormsKept(key);
      PluralFormsKept(key);
      NormalizeAll(RawVariants(key))
  }

  /** A variant that is already non-empty normalised text is an alias. */
  lemma KeptVariant(vs: set<string>, v: string)
    requires v in vs
    requires v != "" && IsNormalized(v)
    ensures v in NormalizeAll(vs)
  {
    NormalizeFixpoint(v);
  }

  /** The key and its space-free form are aliases. */
  lemma BaseFormsKept(key: string)
    requires IsNormalized(key) && key != ""
    ensures key in NormalizeAll(RawVariants(key))
    ensures RemoveSpaces(key) in NormalizeAll(RawVariants(key))
  {
    KeptVariant(RawVariants(key), key);
    RemoveSpacesWord(key);
    KeptVariant(RawVariants(key), RemoveSpaces(key));
  }

  /** Every "<article> <key>" is an alias. */
  lemma ArticleFormsKept(key: string)
    requires IsNormalized(key) && key != ""
    ensures forall art | art in AppArticles :: art + " " + key in NormalizeAll(RawVariants(key))
  {
    forall art | art in AppArticles ensures art + " " + key in NormalizeAll(RawVariants(key)) {
      PrefixWordNormalized(art, key);
      KeptVariant(RawVariants(key), art + " " + key);
    }
  }

  /** Every plural variant is an alias. */
  lemma PluralFormsKept(key: string)
    requires IsNormalized(key) && key != ""
    ensures TokensVariants(Words(key)) <= NormalizeAll(RawVariants(key))
  {
    TokensVariantsNormalized(Words(key));
    forall v | v in TokensVariants(Words(key)) ensures v in NormalizeAll(RawVariants(key)) {
      KeptVariant(RawVariants(key), v);
    }
  }

  /** Removing the spaces of non-empty normalised text leaves a single token. */
  lemma {:induction false} RemoveSpacesWord(t: string)
    requires IsNormalized(t) && t != ""
    ensures IsWord(RemoveSpaces(t))
  {
    var r := RemoveSpaces(t);
    assert t == [t[0]] + t[1..];
    FilterCons(NotSpace, t[0], t[1..]);
    assert r[0] == t[0];
    forall i | 0 <= i < |r| ensures IsWordChar(r[i]) {
      assert r[i] in t;
    }
  }

  /** A token, a space and non-empty normalised text form normalised text. */
  lemma PrefixWordNormalized(w: string, t: string)
    requires IsWord(w)
    requires IsNormalized(t) && t != ""
    ensures IsNormalized(w + " " + t)
  {
    var s := w + " " + t;
    assert forall i | 0 <= i < |w| :: s[i] == w[i];
    assert forall i | |w| < i < |s| :: s[i] == t[i - |w| - 1];
  }

  /** Toggle forms of a token are tokens. */
  lemma ToggleWord(token: string, u: string)
    requires IsWord(token) && u in PluralToggle(token)
    ensures IsWord(u)
  {
    if u != token {
      if u + "s" == token {
        assert forall i | 0 <= i < |u| :: u[i] == token[i];
      } else {
        assert forall i | 0 <= i < |token| :: u[i] == token[i];
      }
    }
  }

  /** Every plural variant of a phrase is non-empty normalised text. */
  lemma TokensVariantsNormalized(tokens: seq<string>)
    requires AllWords(tokens)
    ensures forall v | v in TokensVariants(tokens) :: v != "" && IsNormalized(v)
  {
    forall v | v in TokensVariants(tokens) ensures v != "" && IsNormalized(v) {
      TokensVariantsSound(v, tokens);
      var ts :| IsToggleChoice(ts, tokens) && JoinSpace(ts) == v;
      forall i | 0 <= i < |ts| ensures IsWord(ts[i]) {
        ToggleWord(tokens[i], ts[i]);
      }
      JoinWordsNormalized(ts);
    }
  }

  /** The configuration with every name normalised, in configuration order. */
  function NormalizeNames(cfg: AssocList): (ps: AssocList)
    ensures |ps| == |cfg|
    ensures forall j | 0 <= j < |cfg| :: ps[j] == (Normalize(cfg[j].0), cfg[j].1)
  {
    seq(|cfg|, j requires 0 <= j < |cfg| => (Normalize(cfg[j].0), cfg[j].1))
  }

  /**
   * `for k, v in ps: d[k] = v` from an empty dictionary, skipping empty keys
   * when `skipEmpty` (`if k:`): every binding is one of the pairs, and the
   * keys are the kept keys of the pairs.
   */
  function AssignAll(ps: AssocList, skipEmpty: bool): (m: AssocList)
    ensures DistinctKeys(m)
    ensures forall p | p in m :: p in ps
    ensures forall k :: k in Keys(m) <==> (!skipEmpty || k != "") && k in Keys(ps)
    decreases |ps|
  {
    if |ps| == 0 then []
    else
      var init := ps[..|ps| - 1];
      var (key, v) := ps[|ps| - 1];
      var m := AssignAll(init, skipEmpty);
      assert Keys(ps) == Keys(init) + [key];
      if skipEmpty && key == "" then m
      else
        AssignDistinct(m, key, v);
        Assign(m, key, v)
  }

  /** The keys of `AssignAll` come in the order each was first assigned. */
  lemma {:induction false} AssignAllOrder(ps: AssocList, skipEmpty: bool)
    ensures InFirstOccurrenceOrder(AssignAll(ps, skipEmpty), Keys(ps))
    decreases |ps|
  {
    if |ps| > 0 {
      var init := ps[..|ps| - 1];
      var (key, v) := ps[|ps| - 1];
      var m := AssignAll(init, skipEmpty);
      AssignAllOrder(init, skipEmpty);
      assert Keys(ps) == Keys(init) + [key];
      if skipEmpty && key == "" {
        assert AssignAll(ps, skipEmpty) == m;
        OrderExtend(m, Keys(init), key);
      } else {
        assert AssignAll(ps, skipEmpty) == Assign(m, key, v);
        assert key in Keys(m) || key !in Keys(init) by {
          if key in Keys(init) {
            assert key in Keys(m);
          }
        }
        AssignOrder(m, Keys(init), key, v);
      }
    }
  }

  /** The last pair with a given kept key supplies its value. */
  lemma {:induction false} AssignAllLastWins(ps: AssocList, skipEmpty: bool, j: nat)
    requires j < |ps|
    requires !skipEmpty || ps[j].0 != ""
    requires forall j' | j < j' < |ps| :: ps[j'].0 != ps[j].0
    ensures Lookup(AssignAll(ps, skipEmpty), ps[j].0) == Some(ps[j].1)
    decreases |ps|
  {
    var init := ps[..|ps| - 1];
    var (key, v) := ps[|ps| - 1];
    var m := AssignAll(init, skipEmpty);
    if j < |ps| - 1 {
      assert init[j] == ps[j];
      assert forall j' | j < j' < |init| :: init[j'] == ps[j'];
      AssignAllLastWins(init, skipEmpty, j);
      if !(skipEmpty && key == "") {
        AssignLookup(m, key, v, ps[j].0);
      }
    } else {
      AssignLookup(m, key, v, key);
    }
  }

  /**
   * The explicit keys of `build_apps_map`: each configuration name,
   * normalised, bound to its command; names normalising to nothing are
   * skipped, and a later name with the same key overwrites the value in
   * place.
   */
  function ExplicitApps(cfg: AssocList): (m: AssocList)
    ensures DistinctKeys(m)
    ensures forall k | k in Keys(m) :: k != "" && IsNormalized(k)
    ensures forall p | p in m :: exists j | 0 <= j < |cfg| :: p == (Normalize(cfg[j].0), cfg[j].1)
    ensures InFirstOccurrenceOrder(m, Keys(NormalizeNames(cfg)))
  {
    var ps := NormalizeNames(cfg);
    var m := AssignAll(ps, true);
    AssignAllOrder(ps, true);
    assert forall p | p in m :: exists j | 0 <= j < |cfg| :: p == (Normalize(cfg[j].0), cfg[j].1) by {
      forall p | p in m ensures exists j | 0 <= j < |cfg| :: p == (Normalize(cfg[j].0), cfg[j].1) {
        var j :| 0 <= j < |ps| && ps[j] == p;
      }
    }
    assert forall k | k in Keys(m) :: IsNormalized(k) by {
      forall k | k in Keys(m) ensures IsNormalized(k) {
        var j :| 0 <= j < |ps| && Keys(ps)[j] == k;
      }
    }
    m
  }

  /**
   * Every non-empty normalised configuration name maps to the command of the
   * last configuration entry with that normalised name.
   */
  lemma ExplicitAppsLastWins(cfg: AssocList, j: nat)
    requires j < |cfg|
    requires Normalize(cfg[j].0) != ""
    requires forall j' | j < j' < |cfg| :: Normalize(cfg[j'].0) != Normalize(cfg[j].0)
    ensures Lookup(ExplicitApps(cfg), Normalize(cfg[j].0)) == Some(cfg[j].1)
  {
    AssignAllLastWins(NormalizeNames(cfg), true, j);
  }

  /**
   * The delete aliases as the listener loads them: each configured name
   * normalised, bound to its path; a later name with the same key
   * overwrites the value in place, and a name normalising to nothing is
   * kept as the empty key.
   */
  function DeleteAliasMap(cfg: AssocList): (m: AssocList)
    ensures DistinctKeys(m)
    ensures forall k :: k in Keys(m) <==> k in Keys(NormalizeNames(cfg))
    ensures forall p | p in m :: exists j | 0 <= j < |cfg| :: p == (Normalize(cfg[j].0), cfg[j].1)
    ensures InFirstOccurrenceOrder(m, Keys(NormalizeNames(cfg)))
  {
    var ps := NormalizeNames(cfg);
    var m := AssignAll(ps, false);
    AssignAllOrder(ps, false);
    assert forall p | p in m :: exists j | 0 <= j < |cfg| :: p == (Normalize(cfg[j].0), cfg[j].1) by {
      forall p | p in m ensures exists j | 0 <= j < |cfg| :: p == (Normalize(cfg[j].0), cfg[j].1) {
        var j :| 0 <= j < |ps| && ps[j] == p;
      }
    }
    m
  }

  /** Every configured delete alias maps to the path of its last same-key entry. */
  lemma DeleteAliasMapLastWins(cfg: AssocList, j: nat)
    requires j < |cfg|
    requires forall j' | j < j' < |cfg| :: Normalize(cfg[j'].0) != Normalize(cfg[j].0)
    ensures Lookup(DeleteAliasMap(cfg), Normalize(cfg[j].0)) == Some(cfg[j].1)
  {
    AssignAllLastWins(NormalizeNames(cfg), false, j);
  }

  /**
   * An iteration order for a set of aliases. Python iterates a `set` in an
   * order that depends on string hashes, so the model takes the order as a
   * parameter and proves only what holds for every order.
   */
  type Enumerator = set<string> -> seq<string>

  /** The enumerator lists exactly the members of each set. */
  ghost predicate ListsExactly(enumerate: Enumerator) {
    forall s: set<string>, x: string :: x in enumerate(s) <==> x in s
  }

  /**
   * `for alias in aliases: if alias and alias not in expanded:
   * expanded[alias] = cmd`: entries are only appended, and only for absent
   * keys.
   */
  function InsertAliases(acc: AssocList, aliases: seq<string>, cmd: string): (r: AssocList)
    ensures acc <= r
    decreases |aliases|
  {
    if |aliases| == 0 then acc
    else
      var a := aliases[0];
      var acc' := if a != "" then InsertIfAbsent(acc, a, cmd) else acc;
      var r := InsertAliases(acc', aliases[1..], cmd);
      PrefixTrans(acc, acc', r);
      r
  }

  /** The alias pass keeps keys distinct. */
  lemma {:induction false} InsertAliasesDistinct(acc: AssocList, aliases: seq<string>, cmd: string)
    requires DistinctKeys(acc)
    ensures DistinctKeys(InsertAliases(acc, aliases, cmd))
    decreases |aliases|
  {
    if |aliases| > 0 {
      var a := aliases[0];
      var acc' := if a != "" then InsertIfAbsent(acc, a, cmd) else acc;
      InsertAliasesDistinct(acc', aliases[1..], cmd);
    }
  }

  /** After the alias pass every non-empty alias is a key. */
  lemma {:induction false} InsertAliasesCovers(acc: AssocList, aliases: seq<string>, cmd: string, a: string)
    requires a in aliases && a != ""
    ensures a in Keys(InsertAliases(acc, aliases, cmd))
    decreases |aliases|
  {
    var a0 := aliases[0];
    var acc' := if a0 != "" then InsertIfAbsent(acc, a0, cmd) else acc;
    var r := InsertAliases(acc', aliases[1..], cmd);
    if a == a0 {
      KeysGrow(acc', r);
    } else {
      assert a in aliases[1..];
      InsertAliasesCovers(acc', aliases[1..], cmd, a);
    }
  }

  /** An alias that was absent before the pass ends up bound to this app's command. */
  lemma {:induction false} InsertAliasesBinds(acc: AssocList, aliases: seq<string>, cmd: string, a: string)
    requires a in aliases && a != ""
    requires a !in Keys(acc)
    ensures Lookup(InsertAliases(acc, aliases, cmd), a) == Some(cmd)
    decreases |aliases|
  {
    var a0 := aliases[0];
    var acc' := if a0 != "" then InsertIfAbsent(acc, a0, cmd) else acc;
    var r := InsertAliases(acc', aliases[1..], cmd);
    assert InsertAliases(acc, aliases, cmd) == r;
    if a == a0 {
      assert acc' == acc + [(a, cmd)];
      LookupAppended(acc, a, cmd);
      LookupExtends(acc', r, a);
    } else {
      assert a in aliases[1..];
      if a0 != "" {
        InsertIfAbsentOther(acc, a0, cmd, a);
      }
      InsertAliasesBinds(acc', aliases[1..], cmd, a);
    }
  }


  /** An entry after the alias pass is an old one or a new alias bound to `cmd`. */
  lemma {:induction false} InsertAliasesEntry(acc: AssocList, aliases: seq<string>, cmd: string, p: (string, string))
    requires p in InsertAliases(acc, aliases, cmd)
    ensures p in acc || (p.1 == cmd && p.0 in aliases && p.0 != "")
    decreases |aliases|
  {
    if |aliases| > 0 {
      var a0 := aliases[0];
      var acc' := if a0 != "" then InsertIfAbsent(acc, a0, cmd) else acc;
      assert InsertAliases(acc, aliases, cmd) == InsertAliases(acc', aliases[1..], cmd);
      InsertAliasesEntry(acc', aliases[1..], cmd, p);
      if p in acc' && p !in acc {
        assert acc' == acc + [(a0, cmd)];
      }
    }
  }

  /** Keys after the alias pass: the old keys, then non-empty aliases. */
  lemma InsertAliasesKey(acc: AssocList, aliases: seq<string>, cmd: string, k: string)
    requires k in Keys(InsertAliases(acc, aliases, cmd))
    ensures k in Keys(acc) || (k in aliases && k != "")
  {
    var r := InsertAliases(acc, aliases, cmd);
    var i :| 0 <= i < |r| && Keys(r)[i] == k;
    InsertAliasesEntry(acc, aliases, cmd, r[i]);
    if r[i] in acc {
      var j :| 0 <= j < |acc| && acc[j] == r[i];
      assert Keys(acc)[j] == k;
    }
  }

  /** A key that was absent and is not a usable alias stays absent. */
  lemma InsertAliasesFresh(acc: AssocList, aliases: seq<string>, cmd: string, k: string)
    requires k !in Keys(acc)
    requires k !in aliases || k == ""
    ensures k !in Keys(InsertAliases(acc, aliases, cmd))
  {
    if k in Keys(InsertAliases(acc, aliases, cmd)) {
      InsertAliasesKey(acc, aliases, cmd, k);
    }
  }

  /**
   * The catalogue after the alias pass has handled the first `n` explicit
   * apps; `aliasesOf` lists one app's aliases in the order they are tried.
   */
  function Expand(explicit: AssocList, n: nat, aliasesOf: string -> seq<string>): (r: AssocList)
    requires n <= |explicit|
    decreases n
  {
    if n == 0 then explicit
    else
      var prev := Expand(explicit, n - 1, aliasesOf);
      InsertAliases(prev, aliasesOf(explicit[n - 1].0), explicit[n - 1].1)
  }

  /** Each stage is a prefix of every later one: an app's aliases precede those of later apps. */
  lemma {:induction false} ExpandMonotone(explicit: AssocList, n: nat, m: nat, aliasesOf: string -> seq<string>)
    requires n <= m <= |explicit|
    ensures Expand(explicit, n, aliasesOf) <= Expand(explicit, m, aliasesOf)
    decreases m - n
  {
    if n < m {
      var mid := Expand(explicit, m - 1, aliasesOf);
      ExpandMonotone(explicit, n, m - 1, aliasesOf);
      ExpandStep(explicit, m - 1, aliasesOf);
      PrefixTrans(Expand(explicit, n, aliasesOf), mid, Expand(explicit, m, aliasesOf));
    }
  }

  /** One app's pass extends the map built so far. */
  lemma ExpandStep(explicit: AssocList, n: nat, aliasesOf: string -> seq<string>)
    requires n < |explicit|
    ensures Expand(explicit, n, aliasesOf) <= Expand(explicit, n + 1, aliasesOf)
  {
    ExpandUnfold(explicit, aliasesOf, n);
  }

  /** A stage's entries: the explicit ones, then for each app handled, aliases bound to its command. */
  lemma {:induction false} ExpandEntries(explicit: AssocList, n: nat, aliasesOf: string -> seq<string>, p: (string, string))
    requires n <= |explicit|
    requires p in Expand(explicit, n, aliasesOf)
    ensures p in explicit || exists i | 0 <= i < n :: p.1 == explicit[i].1
                                                    && p.0 in aliasesOf(explicit[i].0)
    decreases n
  {
    if n > 0 {
      var prev := Expand(explicit, n - 1, aliasesOf);
      InsertAliasesEntry(prev, aliasesOf(explicit[n - 1].0), explicit[n - 1].1, p);
      if p in prev {
        ExpandEntries(explicit, n - 1, aliasesOf, p);
      } else {
        assert p.1 == explicit[n - 1].1 && p.0 in aliasesOf(explicit[n - 1].0);
      }
    }
  }

  /** The alias pass adds no empty key and keeps keys distinct. */
  lemma ExpandWellFormed(explicit: AssocList, n: nat, aliasesOf: string -> seq<string>)
    requires n <= |explicit|
    requires DistinctKeys(explicit)
    requires forall k | k in Keys(explicit) :: k != ""
    ensures DistinctKeys(Expand(explicit, n, aliasesOf))
    ensures forall k | k in Keys(Expand(explicit, n, aliasesOf)) :: k != ""
  {
    ExpandDistinct(explicit, n, aliasesOf);
    ExpandNoEmptyKey(explicit, n, aliasesOf);
  }

  lemma {:induction false} ExpandDistinct(explicit: AssocList, n: nat, aliasesOf: string -> seq<string>)
    requires n <= |explicit|
    requires DistinctKeys(explicit)
    ensures DistinctKeys(Expand(explicit, n, aliasesOf))
    decreases n
  {
    if n > 0 {
      ExpandDistinct(explicit, n - 1, aliasesOf);
      ExpandStepDistinct(explicit, aliasesOf, n - 1);
    }
  }

  lemma ExpandStepDistinct(explicit: AssocList, aliasesOf: string -> seq<string>, i: nat)
    requires i < |explicit|
    requires DistinctKeys(Expand(explicit, i, aliasesOf))
    ensures DistinctKeys(Expand(explicit, i + 1, aliasesOf))
  {
    InsertAliasesDistinct(Expand(explicit, i, aliasesOf), aliasesOf(explicit[i].0), explicit[i].1);
    ExpandUnfold(explicit, aliasesOf, i);
  }

  lemma {:induction false} ExpandNoEmptyKey(explicit: AssocList, n: nat, aliasesOf: string -> seq<string>)
    requires n <= |explicit|
    requires "" !in Keys(explicit)
    ensures "" !in Keys(Expand(explicit, n, aliasesOf))
    decreases n
  {
    if n > 0 {
      var prev := Expand(explicit, n - 1, aliasesOf);
      var r := InsertAliases(prev, aliasesOf(explicit[n - 1].0), explicit[n - 1].1);
      assert Expand(explicit, n, aliasesOf) == r;
      ExpandNoEmptyKey(explicit, n - 1, aliasesOf);
      InsertAliasesFresh(prev, aliasesOf(explicit[n - 1].0), explicit[n - 1].1, "");
    }
  }

  /** The aliases of one configured name, in the order the set is iterated. */
  function AliasOrder(enumerate: Enumerator): (f: string -> seq<string>)
    ensures forall key :: f(key) == enumerate(GenerateAliases(key))
  {
    key => enumerate(GenerateAliases(key))
  }

  /**
   * `build_apps_map`: the explicit keys first, then, app by app in
   * declaration order, every generated alias not yet present.
   */
  function BuildAppsMap(cfg: AssocList, enumerate: Enumerator): (r: AssocList)
    ensures ExplicitApps(cfg) <= r
    ensures DistinctKeys(r)
    ensures forall k | k in Keys(r) :: k != ""
    ensures forall p | p in r :: exists j | 0 <= j < |cfg| :: p.1 == cfg[j].1
    ensures forall k | k in Keys(ExplicitApps(cfg)) :: Lookup(r, k) == Lookup(ExplicitApps(cfg), k)
  {
    var explicit := ExplicitApps(cfg);
    var r := Expand(explicit, |explicit|, AliasOrder(enumerate));
    ExpandMonotone(explicit, 0, |explicit|, AliasOrder(enumerate));
    ExpandWellFormed(explicit, |explicit|, AliasOrder(enumerate));
    ValuesConfigured(cfg, enumerate);
    assert forall k | k in Keys(explicit) :: Lookup(r, k) == Lookup(explicit, k) by {
      forall k | k in Keys(explicit) ensures Lookup(r, k) == Lookup(explicit, k) {
        LookupExtends(explicit, r, k);
      }
    }
    r
  }

  /** Every value of the catalogue is a configured command. */
  lemma ValuesConfigured(cfg: AssocList, enumerate: Enumerator)
    ensures var explicit := ExplicitApps(cfg);
            forall p | p in Expand(explicit, |explicit|, AliasOrder(enumerate)) :: exists j | 0 <= j < |cfg| :: p.1 == cfg[j].1
  {
    var explicit := ExplicitApps(cfg);
    forall p | p in Expand(explicit, |explicit|, AliasOrder(enumerate)) ensures exists j | 0 <= j < |cfg| :: p.1 == cfg[j].1 {
      ExpandEntries(explicit, |explicit|, AliasOrder(enumerate), p);
      var q: (string, string);
      if p in explicit {
        q := p;
      } else {
        var i :| 0 <= i < |explicit| && p.1 == explicit[i].1 && p.0 in AliasOrder(enumerate)(explicit[i].0);
        q := explicit[i];
      }
      assert q in explicit;
      var j :| 0 <= j < |cfg| && q == (Normalize(cfg[j].0), cfg[j].1);
    }
  }

  /** Keys of a stage: explicit keys, or aliases of an app already handled. */
  lemma {:induction false} ExpandKeys(explicit: AssocList, n: nat, aliasesOf: string -> seq<string>, k: string)
    requires n <= |explicit|
    requires k in Keys(Expand(explicit, n, aliasesOf))
    ensures k in Keys(explicit) || exists i | 0 <= i < n :: k in aliasesOf(explicit[i].0)
    decreases n
  {
    if n > 0 {
      var prev := Expand(explicit, n - 1, aliasesOf);
      InsertAliasesKey(prev, aliasesOf(explicit[n - 1].0), explicit[n - 1].1, k);
      if k in Keys(prev) {
        ExpandKeys(explicit, n - 1, aliasesOf, k);
        if k !in Keys(explicit) {
          var i :| 0 <= i < n - 1 && k in aliasesOf(explicit[i].0);
          assert 0 <= i < n && k in aliasesOf(explicit[i].0);
        }
      } else {
        assert k in aliasesOf(explicit[n - 1].0);
      }
    }
  }

  /** Every alias generated for an explicit app is a key of the catalogue. */
  lemma BuildAppsMapCovers(cfg: AssocList, enumerate: Enumerator, i: nat, a: string)
    requires ListsExactly(enumerate)
    requires i < |ExplicitApps(cfg)|
    requires a in GenerateAliases(ExplicitApps(cfg)[i].0)
    ensures a in Keys(BuildAppsMap(cfg, enumerate))
  {
    var explicit := ExplicitApps(cfg);
    var f := AliasOrder(enumerate);
    assert a in f(explicit[i].0);
    InsertAliasesCovers(Expand(explicit, i, f), f(explicit[i].0), explicit[i].1, a);
    ExpandMonotone(explicit, i + 1, |explicit|, f);
    KeysGrow(Expand(explicit, i + 1, f), Expand(explicit, |explicit|, f));
  }

  /** None of the first `n` apps lists `a` among its aliases. */
  predicate NoEarlierAlias(explicit: AssocList, aliasesOf: string -> seq<string>, n: nat, a: string)
    requires n <= |explicit|
  {
    forall i | 0 <= i < n :: a !in aliasesOf(explicit[i].0)
  }

  /** The first app whose alias list holds a non-explicit key binds it for good. */
  lemma ExpandClaims(explicit: AssocList, aliasesOf: string -> seq<string>, i: nat, a: string)
    requires i < |explicit|
    requires a in aliasesOf(explicit[i].0) && a != ""
    requires a !in Keys(explicit)
    requires NoEarlierAlias(explicit, aliasesOf, i, a)
    ensures Lookup(Expand(explicit, |explicit|, aliasesOf), a) == Some(explicit[i].1)
  {
    ExpandFresh(explicit, aliasesOf, i, a);
    ExpandBindsAt(explicit, aliasesOf, i, a);
    ExpandTail(explicit, i + 1, aliasesOf, a);
  }

  /** App `i`'s pass binds its aliases that are still absent to its command. */
  lemma ExpandBindsAt(explicit: AssocList, aliasesOf: string -> seq<string>, i: nat, a: string)
    requires i < |explicit|
    requires a in aliasesOf(explicit[i].0) && a != ""
    requires a !in Keys(Expand(explicit, i, aliasesOf))
    ensures var after := Expand(explicit, i + 1, aliasesOf);
            a in Keys(after) && Lookup(after, a) == Some(explicit[i].1)
  {
    var prev := Expand(explicit, i, aliasesOf);
    ExpandUnfold(explicit, aliasesOf, i);
    InsertAliasesCovers(prev, aliasesOf(explicit[i].0), explicit[i].1, a);
    InsertAliasesBinds(prev, aliasesOf(explicit[i].0), explicit[i].1, a);
  }

  /** The stage after app `i` is app `i`'s pass over the stage before it. */
  lemma ExpandUnfold(explicit: AssocList, aliasesOf: string -> seq<string>, i: nat)
    requires i < |explicit|
    ensures Expand(explicit, i + 1, aliasesOf)
              == InsertAliases(Expand(explicit, i, aliasesOf), aliasesOf(explicit[i].0), explicit[i].1)
  {
  }

  /** A key that is neither explicit nor an alias of the first `n` apps is absent after them. */
  lemma {:induction false} ExpandFresh(explicit: AssocList, aliasesOf: string -> seq<string>, n: nat, a: string)
    requires n <= |explicit|
    requires a !in Keys(explicit)
    requires NoEarlierAlias(explicit, aliasesOf, n, a)
    ensures a !in Keys(Expand(explicit, n, aliasesOf))
  {
    if n > 0 {
      var prev := Expand(explicit, n - 1, aliasesOf);
      ExpandFresh(explicit, aliasesOf, n - 1, a);
      assert a !in aliasesOf(explicit[n - 1].0);
      var r := InsertAliases(prev, aliasesOf(explicit[n - 1].0), explicit[n - 1].1);
      assert Expand(explicit, n, aliasesOf) == r;
      InsertAliasesFresh(prev, aliasesOf(explicit[n - 1].0), explicit[n - 1].1, a);
    }
  }

  /** A key bound at some stage keeps its binding in the finished catalogue. */
  lemma ExpandTail(explicit: AssocList, n: nat, aliasesOf: string -> seq<string>, a: string)
    requires n <= |explicit|
    requires a in Keys(Expand(explicit, n, aliasesOf))
    ensures Lookup(Expand(explicit, |explicit|, aliasesOf), a) == Lookup(Expand(explicit, n, aliasesOf), a)
  {
    ExpandMonotone(explicit, n, |explicit|, aliasesOf);
    LookupExtends(Expand(explicit, n, aliasesOf), Expand(explicit, |explicit|, aliasesOf), a);
  }

  /**
   * A generated alias that is not an explicit key belongs to the first app,
   * in configuration order, that generates it: later apps never take it
   * over.
   */
  lemma BuildAppsMapClaims(cfg: AssocList, enumerate: Enumerator, i: nat, a: string)
    requires ListsExactly(enumerate)
    requires i < |ExplicitApps(cfg)|
    requires a in GenerateAliases(ExplicitApps(cfg)[i].0)
    requires a !in Keys(ExplicitApps(cfg))
    requires forall i' | 0 <= i' < i :: a !in GenerateAliases(ExplicitApps(cfg)[i'].0)
    ensures Lookup(BuildAppsMap(cfg, enumerate), a) == Some(ExplicitApps(cfg)[i].1)
  {
    var explicit := ExplicitApps(cfg);
    var f := AliasOrder(enumerate);
    assert a in f(explicit[i].0);
    forall i' | 0 <= i' < i ensures a !in f(explicit[i'].0) {
      assert a !in GenerateAliases(explicit[i'].0);
    }
    assert NoEarlierAlias(explicit, f, i, a);
    ExpandClaims(explicit, f, i, a);
  }
}
