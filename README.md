# Phoenix LiveView client utilities: key matching, ancestor search, id and key parsing

This project models the pure decision and search logic of the LiveView
JavaScript client's `utils.js`, and proves what each piece computes:

- **Key-combination matching** (`hasSpecificKeyBeenPressed`). This decides
  whether a keyboard event satisfies the tokens of a `phx-key` binding, such as
  `["ctrl", "k"]`. Module `KeyCombo` has the method, written statement by
  statement. The method is proved to compute the declarative rule `Satisfied`,
  and the lemmas beside it prove the rule's properties.
- **Key-name normalisation** (`kebabCase`, `keyToModifiers`). A key value such
  as `"ArrowUp"` is turned into the set of names a binding may use for it, here
  `{"up", "arrow-up"}`. Module `KeyNormalizer` models each regular-expression
  rewrite of `kebabCase` as its own function: the global scan that resumes after
  each match, and the first-match-only replacement. Each function is proved
  against a pointwise or reference description of its effect.
- **Bounded ancestor search** (`closestPhxBinding`). This finds the nearest
  element, starting with the element itself, that carries a binding attribute
  and is not disabled. The walk never passes the border element, a LiveView
  root, or a non-element node. Module `AncestorBinding` models it as a method
  with the source's do-while loop, walking over the chain of parent nodes.
- **Component ids** (`isCid`). Module `Cid` proves that the accepted strings are
  exactly the decimal renderings of the natural numbers.
- **Form-field key paths** (`parsePhxKey`). Module `PhxKey` models the global
  regular-expression scan `/[^.\]]+(?=[^\]]*$)/g` as the engine runs it: a
  greedy run, backtracking under the look-ahead, and a scan that moves one
  character on after a failure. It is proved to give the non-empty
  `.`-separated pieces of the text after the last `]`.

`JsArray.Filter` models `Array.prototype.filter`. `Wrappers.Option` stands for
an optional value where JavaScript has `undefined` or `null`.

Two details of the code shape the model:

- `kebabCase` replaces only the FIRST underscore or whitespace character with a
  hyphen. The regular expression `/[_\s]/` on line 122 has no `g` flag. So
  `"a_b_c"` becomes `"a-b_c"`, as `KeyNormalizer.KebabCaseSnake` proves. It does
  not replace a run of such characters, nor every one of them.
- The alias table of `keyToModifiers` has no entry mapping a name to itself.
  Only line 145 adds the kebab-cased key as its own alias. The result is the
  names whose value is the key (lines 147-149): the key itself and the table
  aliases pointing at it. The key is never mapped forward through the table.
  So the key value `"Esc"` is known only as `"esc"`, not also as `"escape"`:
  `"esc"` comes from line 145, and no table entry has the value `"esc"`. That assignment is always
  an ordinary property write: only the key `"_"` kebab-cases to a name that
  starts with `_`, so no key becomes `"__proto__"`
  (`KeyNormalizer.KebabCaseNoLeadingUnderscore`).

## Model

| member | source | states |
|---|---|---|
| KeyCombo.SystemKeyModifiers | assets/js/phoenix_live_view/utils.js:99 | the six system-modifier names in the source's order: ctrl, shift, alt, meta, cmd, super |
| KeyCombo.IsSystemModifier | assets/js/phoenix_live_view/utils.js:99-102 | a token is a system modifier iff it is one of the six names |
| KeyCombo.EventFlag | assets/js/phoenix_live_view/utils.js:108 | ``e[`${modifier}Key`]``: the event's ctrl, shift, alt or meta flag for that name, falsy for any other name |
| KeyCombo.Satisfied | assets/js/phoenix_live_view/utils.js:91-118 | the matching rule, written declaratively: no tokens; or one token among the pressed key's names; or some system-modifier token, every system-modifier token held, and the first other token among the pressed key's names |
| KeyCombo.HasSpecificKeyBeenPressed | assets/js/phoenix_live_view/utils.js:91-118 | the statement-by-statement matcher returns exactly `Satisfied(e, keys)`: an empty list matches; one token matches when it names the pressed key; otherwise a system modifier must be requested, every requested one held, and the first other token must name the pressed key |
| KeyCombo.FirstResidual | assets/js/phoenix_live_view/utils.js:102 | no result iff every token is a system modifier; otherwise the result is the token at the first index that is not one |
| KeyCombo.ResidualsStartWithFirstResidual | assets/js/phoenix_live_view/utils.js:102-114 | `keys[0]` after the filter of line 102 is the first token that is not a system modifier, and the filtered list is empty iff there is none |
| KeyCombo.SelectedSystemModifiers | assets/js/phoenix_live_view/utils.js:99-100 | a name is selected iff it is a system modifier and among the tokens |
| KeyCombo.ActivelyPressed | assets/js/phoenix_live_view/utils.js:104-109 | a selected modifier is kept iff its flag is set, with "cmd" and "super" reading `metaKey` |
| KeyCombo.AllPressed | assets/js/phoenix_live_view/utils.js:112 | the length comparison holds iff every selected modifier is held |
| KeyCombo.RemainingTokens | assets/js/phoenix_live_view/utils.js:102 | dropping the selected modifiers from the tokens drops exactly the system-modifier tokens |
| KeyCombo.EmptyRequestMatches | assets/js/phoenix_live_view/utils.js:93 | an empty token list matches every event |
| KeyCombo.SingleTokenIgnoresModifiers | assets/js/phoenix_live_view/utils.js:96 | a single token naming the pressed key matches whatever modifier flags the event has |
| KeyCombo.MatchNeedsRequestedModifiers | assets/js/phoenix_live_view/utils.js:99-112 | outside the single-token case, a match implies each requested ctrl/shift/alt flag is set and "meta"/"cmd"/"super" imply `metaKey` |
| KeyCombo.ExtraModifiersNeverHurt | assets/js/phoenix_live_view/utils.js:104-112 | holding more modifiers (same key) never turns a match into a mismatch |
| KeyCombo.NoModifierNoCombination | assets/js/phoenix_live_view/utils.js:103-117 | two or more tokens without a system modifier never match |
| KeyCombo.OnlyModifiersNeedShortcut | assets/js/phoenix_live_view/utils.js:96-117 | a matching list made only of system modifiers has at most one token, and that token names the pressed key |
| KeyCombo.ShiftAloneNeedsShiftKey | assets/js/phoenix_live_view/utils.js:96-117 | `["shift"]` matches iff the event key is present, non-empty and kebab-cases to "shift" |
| KeyCombo.CtrlK | assets/js/phoenix_live_view/utils.js:99-114 | `["ctrl", "k"]` matches iff ctrl is held and "k" names the pressed key |
| KeyCombo.CmdMeansMeta | assets/js/phoenix_live_view/utils.js:106 | `["cmd", k]` and `["meta", k]` match the same events |
| KeyCombo.LaterResidualsIgnored | assets/js/phoenix_live_view/utils.js:102-114 | appending non-modifier tokens after a list of two or more that already has one does not change the verdict |
| KeyCombo.FirstResidualOfPrefix | assets/js/phoenix_live_view/utils.js:102 | the first non-modifier token of a list stays first in any extension of it |
| JsArray.Filter | assets/js/phoenix_live_view/utils.js:100 | the result is no longer than the input and holds exactly the input's elements the callback accepts |
| JsArray.FilterKeepsAll | assets/js/phoenix_live_view/utils.js:112 | a filter keeps the length iff every element passes |
| JsArray.FilterCongruent | assets/js/phoenix_live_view/utils.js:102 | two callbacks that agree on the elements give the same filtered list |
| KeyNormalizer.IsJsWhitespace | assets/js/phoenix_live_view/utils.js:122 | the ECMAScript `\s` class: TAB, LF, VT, FF, CR, the Unicode space separators, LS, PS and ZWNBSP, by code point |
| KeyNormalizer.IsSeparator | assets/js/phoenix_live_view/utils.js:122 | the class `[_\s]`: an underscore or a `\s` character |
| KeyNormalizer.HyphenateBoundaries | assets/js/phoenix_live_view/utils.js:122 | the global `/([a-z])([A-Z])/g` rewrite leaves no lower-case letter directly before an upper-case one, keeps the first character and never shortens |
| KeyNormalizer.HyphenateBoundariesMatchesReference | assets/js/phoenix_live_view/utils.js:122 | the scan that resumes after each match inserts a hyphen after every character that ends a lower-to-upper boundary, and nowhere else |
| KeyNormalizer.FirstSeparatorAfterHead | assets/js/phoenix_live_view/utils.js:122 | past a head that is no separator, the first separator of a string is the first separator of its tail |
| KeyNormalizer.ReplaceFirstSeparator | assets/js/phoenix_live_view/utils.js:122 | `/[_\s]/` without `g`: the length is kept, the first underscore or ECMAScript whitespace character becomes '-', and every other character is unchanged |
| KeyNormalizer.LowerChar | assets/js/phoenix_live_view/utils.js:122 | the result is not an ASCII upper-case letter |
| KeyNormalizer.ToLowerAscii | assets/js/phoenix_live_view/utils.js:122 | same length; each character is lowered |
| KeyNormalizer.KebabCase | assets/js/phoenix_live_view/utils.js:120-123 | " " and "_" are returned unchanged; any other subject gives a result with no upper-case ASCII letter and no shorter than the subject |
| KeyNormalizer.KebabCaseNoLeadingUnderscore | assets/js/phoenix_live_view/utils.js:120-123 | for any non-empty key other than "_", the kebab-cased name does not start with '_', so it is never "__proto__" |
| KeyNormalizer.KebabCaseSpaceAndUnderscore | assets/js/phoenix_live_view/utils.js:121 | `kebabCase(" ") == " "` and `kebabCase("_") == "_"` |
| KeyNormalizer.HyphenateWithoutBoundary | assets/js/phoenix_live_view/utils.js:122 | a string without a lower-to-upper boundary is left alone by the first rewrite |
| KeyNormalizer.ReplaceWithoutSeparator | assets/js/phoenix_live_view/utils.js:122 | a string of ASCII letters and hyphens is left alone by the second rewrite |
| KeyNormalizer.KebabCaseArrowUp | assets/js/phoenix_live_view/utils.js:120-123 | "arrowUp" kebab-cases to "arrow-up" |
| KeyNormalizer.KebabCaseCapitalArrowUp | assets/js/phoenix_live_view/utils.js:120-123 | "ArrowUp" kebab-cases to "arrow-up" |
| KeyNormalizer.KebabCaseEscape | assets/js/phoenix_live_view/utils.js:120-123 | "Escape" kebab-cases to "escape" |
| KeyNormalizer.KebabCaseEsc | assets/js/phoenix_live_view/utils.js:120-123 | "Esc" kebab-cases to "esc" |
| KeyNormalizer.KebabCaseSnake | assets/js/phoenix_live_view/utils.js:120-123 | "a_b_c" kebab-cases to "a-b_c": only the first separator is replaced |
| KeyNormalizer.AliasTable | assets/js/phoenix_live_view/utils.js:128-143 | the fourteen aliases of the table and the kebab-cased key value each stands for; no entry maps a name to itself |
| KeyNormalizer.KeyToModifiers | assets/js/phoenix_live_view/utils.js:125-150 | undefined or "" gives no names; otherwise a name is in the result iff it is the kebab-cased key or a table alias whose value is the kebab-cased key |
| KeyNormalizer.KeyToModifiersHasKey | assets/js/phoenix_live_view/utils.js:145-149 | a non-empty key is always known by its own kebab-cased form |
| KeyNormalizer.KeyToModifiersOnlyAliases | assets/js/phoenix_live_view/utils.js:126-149 | every name in the result comes from a non-empty key and is either its kebab-cased form or an alias of it |
| KeyNormalizer.AliasesPointingAt | assets/js/phoenix_live_view/utils.js:128-143 | "esc" is the only alias of "escape", "up" of "arrow-up", "space" and "spacebar" of " ", and no alias has the value "esc" |
| KeyNormalizer.KeyToModifiersOfEscape | assets/js/phoenix_live_view/utils.js:125-150 | any key that kebab-cases to "escape" is known exactly as "esc" and "escape" |
| KeyNormalizer.KeyToModifiersOfArrowUp | assets/js/phoenix_live_view/utils.js:125-150 | any key that kebab-cases to "arrow-up" is known exactly as "up" and "arrow-up" |
| KeyNormalizer.KeyToModifiersOfEsc | assets/js/phoenix_live_view/utils.js:134-149 | any key that kebab-cases to "esc" is known only as "esc": line 145 adds "esc" as its own alias, and no table entry has the value "esc" (names are looked up by value, never mapped forward) |
| KeyNormalizer.KeyToModifiersEscape | assets/js/phoenix_live_view/utils.js:125-150 | `keyToModifiers("Escape")` is {"esc", "escape"} |
| KeyNormalizer.KeyToModifiersArrowUp | assets/js/phoenix_live_view/utils.js:125-150 | `keyToModifiers("ArrowUp")` is {"up", "arrow-up"} |
| KeyNormalizer.KeyToModifiersSpace | assets/js/phoenix_live_view/utils.js:125-150 | `keyToModifiers(" ")` is {"space", "spacebar", " "} |
| KeyNormalizer.KeyToModifiersEsc | assets/js/phoenix_live_view/utils.js:125-150 | `keyToModifiers("Esc")` is {"esc"} |
| AncestorBinding.IsBound | assets/js/phoenix_live_view/utils.js:39 | the test of line 39: the node carries the binding attribute and is not disabled |
| AncestorBinding.EndsWalk | assets/js/phoenix_live_view/utils.js:41 | the negated loop condition: the node stepped onto is not an element, is the border element, or is a LiveView root (the null parent is the end of the chain) |
| AncestorBinding.ClosestPhxBinding | assets/js/phoenix_live_view/utils.js:37-43 | a bound start node is returned even when it is the border or a root; a result is a bound, reachable node with no bound node before it on the chain; no result means no reachable node is bound; the loop ends within the chain's length |
| Cid.IsCid | assets/js/phoenix_live_view/utils.js:9-12 | true for every number; for a string, true iff it is the decimal rendering of some natural number; false for any other value |
| Cid.IsCanonicalDecimal | assets/js/phoenix_live_view/utils.js:11 | `/^(0\|[1-9]\d*)$/` holds iff the string is non-empty, all ASCII digits, and starts with '0' only when it is "0" |
| Cid.CanonicalIffRendering | assets/js/phoenix_live_view/utils.js:11 | a string passes the regular expression iff it is the rendering of some natural number |
| Cid.DecimalStringShape | assets/js/phoenix_live_view/utils.js:11 | the rendering of a natural is a non-empty digit string that starts with '0' iff the number is 0 |
| Cid.DecimalStringIsCanonical | assets/js/phoenix_live_view/utils.js:11 | the rendering of every natural number passes the regular expression |
| Cid.LeadingDigitPositive | assets/js/phoenix_live_view/utils.js:11 | a digit string with a non-zero first digit has a positive value |
| Cid.CanonicalIsDecimal | assets/js/phoenix_live_view/utils.js:11 | every string that passes the regular expression is all digits and is the rendering of its own value |
| Cid.IsCidExamples | assets/js/phoenix_live_view/utils.js:9-12 | numbers, "0" and "120" pass; "", "01", "1a" and non-number, non-string values fail |
| PhxKey.IsSegmentChar | assets/js/phoenix_live_view/utils.js:67 | the class `[^.\]]`: any character other than '.' and ']' |
| PhxKey.NoBracketFrom | assets/js/phoenix_live_view/utils.js:67 | the look-ahead `(?=[^\]]*$)` at a position: no ']' from there to the end |
| PhxKey.RunEnd | assets/js/phoenix_live_view/utils.js:67 | the longest run of `[^.\]]` characters from `p`: all of it qualifies and the character after it does not |
| PhxKey.MatchLength | assets/js/phoenix_live_view/utils.js:67 | the greedy quantifier's backtracking gives a length no greater than the run, and a positive length only where the look-ahead holds |
| PhxKey.Matches | assets/js/phoenix_live_view/utils.js:67 | the global scan of `key.match(...)`: at each position the longest run that passes the look-ahead is a match and the scan resumes after it; where none passes, the scan moves one character on |
| PhxKey.MatchesAreSegments | assets/js/phoenix_live_view/utils.js:67 | every match is non-empty and holds neither '.' nor ']' |
| PhxKey.ParsePhxKey | assets/js/phoenix_live_view/utils.js:65-68 | undefined or "" gives `[]`; every token is non-empty and holds neither '.' nor ']' |
| PhxKey.AfterLastBracket | assets/js/phoenix_live_view/utils.js:67 | a suffix of the key without ']', preceded by a ']' when it is not the whole key |
| PhxKey.SplitAfterRun | assets/js/phoenix_live_view/utils.js:67 | a dot-free prefix joins the first piece of the text after it under splitting on '.' |
| PhxKey.MatchesWithoutBracket | assets/js/phoenix_live_view/utils.js:67 | where no ']' follows, the scan yields exactly the non-empty '.'-separated pieces |
| PhxKey.NoMatchBeforeBracket | assets/js/phoenix_live_view/utils.js:67 | any run that ends before a ']' fails the look-ahead at every length |
| PhxKey.NothingBeforeLastBracket | assets/js/phoenix_live_view/utils.js:67 | the scan finds nothing before the last ']' |
| PhxKey.ParsePhxKeyIsPiecesAfterLastBracket | assets/js/phoenix_live_view/utils.js:65-68 | `parsePhxKey(s)` is the non-empty '.'-separated pieces of the text after the last ']' of `s` (of all of `s` when it has none) |
| PhxKey.ParsePhxKeyWithoutBracket | assets/js/phoenix_live_view/utils.js:65-68 | for a key without ']', `parsePhxKey` is splitting on '.' and dropping empty pieces |
| PhxKey.ParsePhxKeyExample | assets/js/phoenix_live_view/utils.js:65-68 | `parsePhxKey("a..b")` is `["a", "b"]` |

## Left out

- `logError`, `debug`, `detectDuplicateIds`: console output and DOM queries. They have no decision logic to state.
- `channelUploader`: it creates `EntryUploader` objects and starts network uploads. `entry_uploader.js` is not part of this model.
- `clone`, `isEqualObj`: round trips through the runtime's JSON serialiser.
- `closure`, `isObject`, `isEmpty`, `maybe`: one-line checks on JavaScript's dynamic types (`typeof`, `instanceof`, `for…in`).
- KeyNormalizer.KeyToModifiers: the result is a set. The order of `Object.keys`, which puts integer-like names first, is not modelled. Callers only ask for membership, with `includes`.
- KeyNormalizer.ToLowerAscii: `toLowerCase` is modelled on the ASCII letters only. Other characters, including non-ASCII capitals, are kept unchanged.
- KeyNormalizer.HyphenateBoundaries: `[a-z]` and `[A-Z]` are the ASCII ranges, as in the source.
- KeyNormalizer.ReplaceFirstSeparator: the `\s` class is written out as the ECMAScript whitespace and line-terminator characters (`KeyNormalizer.IsJsWhitespace`), listed by code point as the current Unicode space separators; a later Unicode version that adds one is not followed.
- AncestorBinding.ClosestPhxBinding: the DOM is replaced by a chain of `Node` values. `chain[i + 1]` is `parentElement || parentNode` of `chain[i]`, and the chain ends where that parent is null. The selectors behave as follows:
  - `el.matches('[binding]')` becomes attribute membership.
  - `PHX_VIEW_SELECTOR` becomes the `isViewRoot` flag. `constants.js` is not part of this model.
  - `isSameNode` becomes equality of node ids.
- AncestorBinding.ClosestPhxBinding requires the start node to be an element, because the source calls `el.matches` on it.
- KeyCombo.HasSpecificKeyBeenPressed: the event's `key` is a string or absent, and a flag such as `e.ctrlKey` is a boolean.
- Cid.IsCid: JavaScript numbers are one case. NaN and the infinities are numbers too and pass, so `JsNumber` carries no value.
