# Voice intent engine — a Dafny model

This project models the intent-resolution engine of a local voice assistant.
A speech recogniser produces a final transcription. The engine normalises
it and recognises one of three intents:

- "open / launch an application" (`ouvre firefox`);
- "delete the path behind an alias" (`supprime photos`);
- "help".

For an application, it resolves the spoken name against a catalogue built
from the configuration and enriched with generated aliases. Resolution runs
in three tiers: exact, then containment, then fuzzy scoring. Every action is
debounced by a cooldown. Around the engine, the listening loop optionally
requires a wake word, which opens a six-second window for commands.

The model is purely functional:

- dictionaries are association lists in insertion order (`Assoc`);
- strings are `seq<char>`;
- scores are `real`;
- the mutable state (the cooldown timestamp, the wake gate) is threaded
  through explicit state records.

Modules, in dependency order:

| module | file | models |
|---|---|---|
| `Options` | options.dfy | `Optional` results |
| `Assoc` | assoc.dfy | Python `dict` semantics: lookup, `d[k] = v` (a new key goes last, an existing one keeps its place), insert-if-absent, first matching entry |
| `Text` | text.dfy | `normalize_text`, `str.split()` and `" ".join` on normalised text, `in`, `endswith`, `replace(" ", "")`, `strip()` |
| `Fillers` | fillers.dfy | `_FILLER_TOKENS`, `_strip_fillers`, `_token_set` |
| `Phonetic` | phonetic.dfy | `_skeleton` and the `str.replace` calls it makes |
| `Score` | score.dfy | `_similarity` (around an abstract ratio), token Jaccard, `_app_match_score` |
| `Resolve` | resolve.dfy | `_resolve_app` and `_resolve_delete_alias` |
| `Cooldown` | cooldown.dfy | `IntentContext.cooldown_ok` |
| `Aliases` | aliases.dfy | `_plural_toggle`, `_tokens_variants`, `_generate_app_aliases`, `build_apps_map`, and the delete-alias map of the loader |
| `Intents` | intents.dfy | `match_intent` and its verb patterns |
| `Listener` | listener.dfy | the wake-word gate and the report filter of the read loop |

Two things the source leaves to the environment are parameters.

- **The string ratio.** `difflib.SequenceMatcher.ratio` is the parameter
  `ratio: (string, string) -> real`. Bounds are proved under the
  hypothesis `RatioBounded(ratio)`, i.e. the ratio lies in [0, 1].
- **The iteration order of a Python `set`.** This order decides which
  alias is inserted first. It is the parameter `enumerate`. Properties that
  need it assume only `ListsExactly(enumerate)`: the listing holds exactly
  the set's members, in any order.

## Model

| member | source | states |
|---|---|---|
| Text.Normalize | intents.py:31-39 | the result is normalised text: only `a-z`, `0-9` and single inner spaces, no leading or trailing space |
| Text.NormalizeFixpoint | intents.py:31-39 | a string is left unchanged by normalisation exactly when it is already normalised |
| Text.NormalizeIdempotent | intents.py:31-39 | normalising twice is normalising once |
| Text.NormalizeIgnoresMark | intents.py:34-35 | a combining mark (U+0300 to U+036F) anywhere in the input does not change the normalised text |
| Text.NormalizeFold | intents.py:32-35 | a character anywhere in the input may be replaced by its lower-cased, accent-stripped form without changing the normalised text |
| Text.NormalizeSeparator | intents.py:37-38 | a character that folds to neither `a-z`, `0-9` nor a combining mark (punctuation, symbols, any whitespace) splits tokens exactly as a space does |
| Text.NormalizeAccented | intents.py:31-39 | "Éditeur" normalises to "editeur" |
| Text.NormalizePunctuation | intents.py:37-38 | "a,b" normalises to "a b" |
| Text.SplitJoin | intents.py:110 | splitting the space-join of tokens gives the tokens back |
| Text.JoinSplit | intents.py:289-290 | joining the tokens of normalised text gives the text back, and non-empty text has a token |
| Text.Strip | main.py:92-94 | the result is a slice of the input with only Python whitespace outside it, and has no whitespace at either end; it is empty exactly when the input is all whitespace |
| Text.StripIdempotent | main.py:92 | stripping twice is stripping once |
| Text.RemoveSpaces | intents.py:125 | a character occurs in the result exactly when it occurs in the input and is not a space; the result is no longer than the input; text without spaces is unchanged |
| Text.RemoveSpacesConcat | intents.py:125 | removing spaces distributes over concatenation, so the characters other than spaces stay in their order |
| Fillers.KeepNonFillers | intents.py:289 | a token survives exactly when it is in the input and is not a filler; input without fillers is unchanged |
| Fillers.KeepNonFillersConcat | intents.py:289 | dropping fillers distributes over concatenation, so the kept tokens stay in their order |
| Fillers.KeepNonFillersIdempotent | intents.py:289 | dropping fillers twice is dropping them once |
| Fillers.StripFillers | intents.py:285-290 | the result is normalised text whose tokens are the non-filler tokens of the normalised input, in order; empty input gives "" |
| Fillers.StripFillersIdempotent | intents.py:285-290 | stripping fillers twice is stripping them once |
| Fillers.StripFillersNormalized | intents.py:285-286 | stripping normalises first, so pre-normalising the input changes nothing |
| Fillers.TokenSet | intents.py:247-248 | a word is in the set exactly when it is a token of the text; for normalised text the set is empty exactly when the text is |
| Fillers.TokenSetJoin | intents.py:247-248 | the token set of space-joined tokens is the set of those tokens |
| Phonetic.ReplaceAll | intents.py:313-319 | `str.replace` with a replacement no longer than its pattern never grows the text; a removed single character no longer occurs |
| Phonetic.ReplaceAllAbsent | intents.py:313-319 | text in which the pattern does not occur is unchanged |
| Phonetic.ReplaceAllLeftmost | intents.py:313-319 | the leftmost occurrence is replaced, the text before it kept, and the scan resumes after it |
| Phonetic.ReplaceAllKeeps | intents.py:313-319 | a character outside the pattern survives the replacement; a consumed character leaves the replacement's first character behind |
| Phonetic.ReplaceAllConcat | intents.py:313-319 | replacing distributes over a concatenation when the pattern is one character, or two characters and the left part does not end with the pattern's first |
| Phonetic.CollapseRepeats | intents.py:326-330 | no two adjacent characters are equal, the characters are exactly those of the input, and the last character is kept |
| Phonetic.CollapseRepeatsFixpoint | intents.py:326-330 | text without adjacent repeats is unchanged |
| Phonetic.CollapseRepeatsConcat | intents.py:326-330 | two texts meeting on different characters collapse separately |
| Phonetic.DropVowels | intents.py:322-323 | a character is kept exactly when it occurs and is not one of `aeiouy` |
| Phonetic.DropVowelsConcat | intents.py:322-323 | dropping vowels distributes over concatenation, so the kept characters stay in their order |
| Phonetic.DropVowelsChar | intents.py:322-323 | one character becomes nothing when it is one of `aeiouy` and stays otherwise |
| Phonetic.Substitute | intents.py:313-319 | after the seven replacements no `c`, `q`, `z` or `v` remains; text with none of them and no `ph` is unchanged |
| Phonetic.SubstituteTable | intents.py:313-319 | `ph` becomes `f`, `qu` and `ck` become `k`, `c` and `q` become `k`, `z` becomes `s`, `v` becomes `f` |
| Phonetic.SubstituteConcat | intents.py:313-319 | the substitutions distribute over a concatenation whose left part is empty or does not end with `p`, `q` or `c`, so with the table they fix the result of any text |
| Phonetic.SubstituteKeeps | intents.py:313-319 | every letter or digit of the input other than `p`, `h` and `u` leaves its merged form (`c`, `q` as `k`; `z` as `s`; `v` as `f`; others as themselves); a `p` or `h` leaves itself or an `f` |
| Phonetic.Skeleton | intents.py:299-330 | empty for empty input; otherwise at most as long as the space-free normalised text, made of letters and digits other than `aeiouy` and `c q z v`, with no adjacent repeat; every letter or digit of the normalised text other than a vowel, `p` and `h` appears in its merged form (`c`, `q` as `k`; `z` as `s`; `v` as `f`), and a `p` or `h` appears as itself or leaves an `f` |
| Phonetic.SkeletonNormalized | intents.py:305 | the skeleton depends on the text only through its normal form |
| Phonetic.SkeletonVowelBlind | intents.py:312-323 | swapping vowels other than `u` for one another leaves the skeleton unchanged |
| Score.Similarity | intents.py:293-296 | 0 when either side is empty, the ratio otherwise, and within [0, 1] for a bounded ratio |
| Score.Jaccard | intents.py:358-363 | within [0, 1], 1 for equal non-empty sets, 0 for disjoint ones |
| Score.AppMatchScore | intents.py:333-369 | 0 when either key is empty or only fillers were spoken; within [0, 1] for a bounded ratio; at least 0.88 when the stripped phrase has 4 or more characters and contains or is contained in the normalised app key |
| Score.AppMatchScorePrestripped | intents.py:338-339 | scoring an already filler-stripped phrase gives the same score |
| Resolve.ExactTier | intents.py:382-389 | absent exactly when no candidate is a key; a hit is a bound key with score 1.0, exact exactly when it is the full phrase; the first candidate wins when it is a key |
| Resolve.ContainTier | intents.py:391-395 | absent exactly when no candidate and entry are in a containment hit; a hit is an entry of the map, scored 0.90, not exact |
| Resolve.ContainTierFirst | intents.py:392-395 | the hit is the first entry, in map order, for the first candidate that has one |
| Resolve.FuzzyBest | intents.py:397-406 | absent exactly when there is no candidate or no app; otherwise it is the first maximum of the scores, candidate by candidate and in map order |
| Resolve.FirstMaxUnique | intents.py:402 | the strict `>` tie-break selects a single position: the first maximum is unique |
| Resolve.ResolveApp | intents.py:372-415 | a result is an entry of the map and passes the thresholds; an exact result is the phrase itself with score 1.0; a phrase that is a key resolves exactly to it; an empty phrase or empty map gives nothing |
| Resolve.ResolveAppExactClean | intents.py:377-389 | when only the filler-stripped phrase is a key, it is returned with score 1.0 but not exact |
| Resolve.ResolveAppContainment | intents.py:391-395 | with no exact hit, the first containment hit is the answer |
| Resolve.ResolveAppFuzzy | intents.py:397-415 | with no exact or containment hit, the answer is the first-maximum entry when it passes the 0.72 / 0.90-under-4-characters thresholds, and nothing otherwise |
| Resolve.FuzzyStrippedPassRedundant | intents.py:399-403 | the second, filler-stripped candidate never changes the fuzzy winner, because scoring strips fillers anyway |
| Resolve.ResolveDeleteAlias | intents.py:418-426 | an exact key returns its target; otherwise the target of the first entry that equals, contains or is contained in the phrase; nothing exactly when no entry does |
| Resolve.ResolveDeleteAliasEmpty | intents.py:418-426 | a phrase that normalises to nothing, when "" is not a key, matches the first entry |
| Resolve.ResolveDeleteAliasEmptyName | intents.py:423-425 | an entry with an empty name placed first answers every phrase that is not itself a key |
| Cooldown.CooldownOk | intents.py:23-28 | an action is allowed exactly when the cooldown has elapsed since the last allowed one; a refusal leaves the state alone, an allowance records `now` |
| Cooldown.CooldownBlocksRepeat | intents.py:23-28 | two calls within the window: the first is allowed and the second refused |
| Cooldown.RunSpacing | intents.py:23-28 | in any sequence of calls, two allowed calls are at least the cooldown apart |
| Cooldown.RunAcceptedPastLast | intents.py:23-28 | every allowed call is at least the cooldown after the starting timestamp |
| Aliases.PluralToggle | intents.py:96-101 | the token itself and, for tokens over two letters, exactly one more form differing by a trailing `s`: the token without its `s` exactly when it ends in `s` |
| Aliases.PluralToggleInverse | intents.py:96-101 | toggling back from a form longer than two letters gives the token again, except from a form ending in `s` that the toggle made by removing an `s` |
| Aliases.TokensVariants | intents.py:104-111 | empty exactly for no tokens |
| Aliases.TokensVariantsComplete | intents.py:104-111 | every choice of one toggle form per token, joined, is a variant |
| Aliases.TokensVariantsSound | intents.py:104-111 | every variant is such a joined choice |
| Aliases.TokensVariantsIdentity | intents.py:104-111 | the phrase itself is one of its variants |
| Aliases.DropRoleWords | intents.py:146 | a token is kept exactly when it is a token of the input and not a role word; input without role words is unchanged |
| Aliases.DropRoleWordsConcat | intents.py:146 | dropping role words distributes over concatenation, so the kept tokens stay in their order |
| Aliases.RawVariants | intents.py:120-190 | contains the key, its space-free form, every article form and every plural variant |
| Aliases.GenerateAliases | intents.py:114-194 | every alias is non-empty normalised text; none for an empty key; otherwise the key, its space-free form, each "article key" and every plural variant are aliases |
| Aliases.TokensVariantsNormalized | intents.py:104-111 | every plural variant of a tokenised phrase is non-empty normalised text |
| Aliases.AssignAll | intents.py:82-86 | keys are distinct and are exactly the kept keys of the pairs; every binding is one of the pairs |
| Aliases.AssignAllOrder | intents.py:82-86 | the keys come in the order of their first assignment |
| Aliases.AssignAllLastWins | intents.py:83-86 | the last pair with a given key supplies its value |
| Aliases.ExplicitApps | intents.py:82-86 | keys are distinct, non-empty and normalised, in the order each normalised name first occurs; every binding is a configured command under its normalised name |
| Aliases.ExplicitAppsLastWins | intents.py:83-86 | a name is bound to the command of the last configuration entry with the same normalised name |
| Aliases.DeleteAliasMap | main.py:54 | keys are distinct and are exactly the normalised names, the empty one included, in the order each first occurs; every binding is a configured path under its normalised name |
| Aliases.DeleteAliasMapLastWins | main.py:54 | a normalised name is bound to the path of its last configuration entry |
| Aliases.InsertAliases | intents.py:90-92 | entries are only appended: the map before the pass is a prefix of the map after it |
| Aliases.InsertAliasesEntry | intents.py:90-92 | every entry after the pass was there before, or binds a non-empty alias of the list to the app's command |
| Aliases.InsertAliasesFresh | intents.py:90-92 | a key that was absent and is not a non-empty alias of the list stays absent |
| Aliases.InsertAliasesDistinct | intents.py:91-92 | keys stay distinct |
| Aliases.InsertAliasesCovers | intents.py:90-92 | every non-empty alias is a key afterwards |
| Aliases.InsertAliasesBinds | intents.py:90-92 | an alias absent before is bound to this app's command |
| Aliases.ExpandMonotone | intents.py:89-92 | each app's pass only extends the map built so far |
| Aliases.ExpandEntries | intents.py:88-92 | every entry is explicit, or an alias of an earlier app bound to that app's command |
| Aliases.ExpandKeys | intents.py:88-92 | every key is explicit, or an alias of an app already handled |
| Aliases.ExpandWellFormed | intents.py:88-92 | keys stay distinct and non-empty |
| Aliases.ExpandFresh | intents.py:88-92 | a key that is neither explicit nor an alias of the apps handled so far is absent |
| Aliases.ExpandClaims | intents.py:88-92 | a non-explicit alias is bound, in the finished map, to the command of the first app that lists it |
| Aliases.BuildAppsMap | intents.py:75-93 | the explicit map is a prefix and explicit keys keep their commands (never overwritten); keys are distinct and non-empty; every value is a configured command |
| Aliases.BuildAppsMapCovers | intents.py:88-92 | every alias generated for an explicit app is a key |
| Aliases.BuildAppsMapClaims | intents.py:88-92 | a generated alias that is not an explicit key is bound to the first app, in configuration order, that generates it |
| Intents.VerbRemainder | intents.py:42-49 | a match is a verb, one space and a non-empty remainder |
| Intents.VerbPrefix | intents.py:42-49 | on normalised text, "starts with the verb and a space" holds exactly when the first of at least two tokens is the verb, and the rest is the remaining tokens |
| Intents.VerbRemainderWords | intents.py:42-49 | the verb patterns match normalised text exactly when its first of two or more tokens is a verb, capturing the remaining tokens |
| Intents.MatchIntent | intents.py:197-244 | empty text gives nothing; only the cooldown state can change, and only on a launch or a delete allowed by the cooldown; a launch names a catalogue entry; a delete names a non-empty configured path, paired with the configured base directory; help only for "aide" or "help" |
| Intents.MatchIntentOpen | intents.py:202-224 | an open command yields unknown-app when resolution fails, otherwise a launch or a cooldown skip according to the cooldown |
| Intents.MatchIntentDelete | intents.py:227-235 | a delete command yields unknown-alias when no target or an empty one is found, otherwise a delete or a cooldown skip |
| Intents.MatchIntentSilent | intents.py:197-244 | no answer exactly when the text is neither an open command, a delete command nor a help word |
| Intents.MatchIntentHelp | intents.py:238-242 | "aide" and "help" always get the help line and leave the context alone |
| Intents.MatchIntentNormalized | intents.py:198 | normalising the utterance beforehand changes nothing |
| Intents.MatchIntentDebounces | intents.py:23-28 | after a launch or delete, no utterance within the cooldown window performs another one |
| Listener.InitState | main.py:77-78 | the gate starts armed exactly when no wake word is required |
| Listener.WakeStep | main.py:92-109 | a dispatched text is the stripped transcription; dispatch happens exactly for non-blank text when no wake word is required or the gate is armed within 6 s of arming; only arming sets the timestamp; only a late transcription disarms, and it is dropped; blank text, and non-waking text at a disarmed gate, change nothing |
| Listener.ListenStep | main.py:111-112 | every outcome of `match_intent` is reported except a cooldown skip, and nothing is reported or changed when the gate drops the text |
| Listener.NoWakeWordStaysArmed | main.py:77-111 | without a required wake word the gate never changes |
| Listener.NoWakeWordDispatchesAll | main.py:77-111 | without a required wake word every non-blank transcription reaches `match_intent` |
| Listener.GateStep | main.py:99-109 | a step that leaves the gate armed either kept an armed gate and its timestamp, or armed it now on the wake word |
| Listener.ArmedSinceWake | main.py:99-109 | an armed gate was armed by an earlier transcription containing the wake word, whose time is the gate's timestamp; commands do not extend the window |
| Listener.DispatchFollowsWake | main.py:99-111 | every dispatched transcription comes at most 6 s after an earlier arming transcription |
| Listener.ArmingNotDispatched | main.py:99-104 | the transcription that arms the gate is not dispatched |

## Left out

- Running commands and deleting files (`hypr_exec`, `safe_delete`, `push_notification`) are not modelled. `Launch` and `Delete` name the request handed to that layer. The "(guessed …)" and "(tried …)" decorations of a non-exact launch depend on its exit status, so they are left out with it.
- Messages are abstracted into `Outcome` constructors, and the report filter's comparison with "(cooldown)" becomes a test for the `CooldownSkipped` constructor. The unknown-app, unknown-alias, help, guessed and tried messages start with fixed text and never equal "(cooldown)". Only the message of `hypr_exec` or `safe_delete`, returned verbatim for an exact launch or a delete, could, and those commands are not modelled.
- Text.Normalize: combining marks are removed only in the range U+0300 to U+036F (except U+034F), which covers the accents NFKD splits off Latin letters; marks of other scripts that `unicodedata.combining` also reports are kept. The thresholds 0.72, 0.90 and 0.88 are exact reals, where Python compares IEEE doubles, so a score within rounding distance of a threshold may fall on the other side.
- Text.Fold: accents are folded character by character for ASCII and Latin-1, plus a few compatibility signs. NFKD expansions of one character into several (ligatures, other scripts) are left out because they need the Unicode tables.
- `difflib.SequenceMatcher.ratio` is a parameter, not reimplemented.
- Score.AppMatchScore: proved bounds and the containment floor only. The exact value depends on the ratio parameter.
- `time.monotonic()` is the `now` parameter. The loop and `cooldown_ok` each read the clock; the model uses one `now` per transcription.
- The resolver thresholds are the literals of intents.py: 0.72, 0.90 and length 4. main.py:56-58 passes `app_match_threshold`, `app_short_threshold` and `app_min_len` to `IntentContext`, which does not declare them, so constructing the context as written raises `TypeError` at startup. The model takes the declared fields only.
- Aliases.GenerateAliases: proves membership of the base, article and plural forms. Role-word, browser, slicer, two-token and brand aliases are built in `RawVariants` but not stated one by one.
- Phonetic.Skeleton: states which characters the skeleton holds, not their order. The order is stated by the distribution lemmas `SubstituteConcat`, `DropVowelsConcat` and `CollapseRepeatsConcat` for the stages one by one.
- Aliases.RawVariants: states membership of the key, its space-free form, the article forms and the plural variants only; the role-word, browser, slicer, two-token and brand aliases it adds are not stated one by one.
- Aliases.TokensVariants: its contract states only emptiness. Its content is the partner lemmas `TokensVariantsComplete` and `TokensVariantsSound`.
- The order in which one app's aliases are inserted follows Python's set iteration, which depends on string hashing. It is the `enumerate` parameter, and the properties proved hold for every listing of the set.
- Configuration loading (`load_config`, JSON parsing, command-line arguments), audio capture and the recogniser are left out. `wake_word` is taken as already normalised (main.py:45).
