# Keybinding model of vscode-keybindings-reimagined

This project models two parts of the repository in Dafny.

- The `Keybinding` class of `src/lib/Keybinding.ts`:
  - the constructor, which splits a raw record's key into setup keystrokes, modifier flags and a stored key;
  - the queries on stored keys: halves, base key, complexity, parts, visualization, titles;
  - the round trip back to a raw record;
  - `compareTo` and `sortRaw`, which order the bindings of the generated keymap.
- The exclusion step of `src/workflows/build/convertGlobals.ts`:
  - the `ExclusionRule` class;
  - the fixed rule list;
  - the loop that splits the global keybindings into `result` (written back as deletions, with a `-` before the command) and `excluded`, counting exclusions per rule title.

The modules:

- `Results` (`results.dfy`): `Option` and `Result`. A thrown `Error` becomes `Err`.
- `JsStrings` (`js_strings.dfy`): the JavaScript string operations the code relies on, written out. These are `split(/\s+/)`, `split` on a literal, `split(/[ +]/)`, `split(/([ +])/)`, `/[ +]/.test`, ASCII `toUpperCase`, `startsWith` and `prevent-start`.
- `Keybindings` (`keybinding.dfy`): the class as a datatype, since its fields are only set in the constructor. The constructor is:
  - the method `NewKeybinding`, whose loop over the parts of the final keystroke is the method `ReadKeystrokeParts`;
  - proved equal to the declarative `FromRaw`.
- `KeybindingOrder` (`keybinding_order.dfy`): `compareTo` and `sortRaw`.
  - The keySorting table and the collator are parameters.
  - The order lemmas assume only `IsComparator`: the collator's sign flips when its arguments are swapped, and its "less" is transitive.
  - The lemmas that characterise ties also assume `IsCollation`: the collator answers 0 only on equal strings.
  - `Ordinal` shows that both assumptions can be met.
- `ConvertGlobals` (`convert_globals.dfy`):
  - the rules as a datatype;
  - the fixed list as a constant;
  - the partition loop as the method `Partition`, proved equal to the specification functions `Kept`, `Excluded` and `ExclusionCounts`.

Where a reading of the code might suggest otherwise, the model follows the code as written:

- The final keystroke is split on the seven-character literal `\s*+\*s` (Keybinding.ts:88). That is a template literal, not a regular expression, so a keystroke such as `ctrl+k` stays one part and becomes the whole stored key.
  - A modifier flag is set only when a part of the final keystroke, split on that literal, is exactly `ctrl`, `shift` or `alt`. Without the literal, that means only when the whole keystroke is.
  - A key such as `ctrl+alt+foo+bar` does not raise the multiple-base-keys error.
  - The error arises only when the literal separator occurs and separates two non-modifier parts.
- The error check `if (this.#key)` is a truthiness test. An empty kept part does not count, so `""` followed by `b` is accepted. `FromRaw` therefore fails exactly when some non-empty base part is followed by another base part.
- `if (data.args)` keeps any array, even an empty one. `if (data.when)` drops an empty `when`.

## Model

| member | source | states |
|---|---|---|
| Keybindings.NewKeybinding | src/lib/Keybinding.ts:75-107 | The constructor yields exactly `FromRaw(data)`: the same fields on success, and the multiple-base-keys error at the same pair of parts. |
| Keybindings.ReadKeystrokeParts | src/lib/Keybinding.ts:89-106 | Without a conflict: the kept key is the last non-modifier part, all earlier ones are empty, and each flag is set iff its modifier occurs. With a conflict: the two parts reported are the first non-empty base part and the one after it. |
| Keybindings.FromRaw | src/lib/Keybinding.ts:75-107 | On success: the binding is well formed (key is a whitespace-free part, not a modifier); command and args are copied; an empty `when` is dropped; setup keystrokes exist iff the key has whitespace. An error names the raw key and two non-modifier parts, the first one non-empty. |
| Keybindings.FromRawKeyOfFinalKeystroke | src/lib/Keybinding.ts:83-106 | The stored key is one of the parts of the final whitespace-separated keystroke. It is unset iff every part of that keystroke is a modifier name. The setup keystrokes followed by the final keystroke are all the keystrokes. |
| Keybindings.FinalKeystrokeIsSuffix | src/lib/Keybinding.ts:83-84 | The final keystroke is a suffix of the raw key: all of it, or preceded by a whitespace character. |
| Keybindings.FromRawSingleToken | src/lib/Keybinding.ts:83-106 | A key that is one whitespace-free, separator-free, non-modifier part is stored unchanged, with no setup keystrokes and no flags. |
| Keybindings.FromRawTwoKeystrokes | src/lib/Keybinding.ts:83-106 | A whitespace-free keystroke, one whitespace character, then a key token: the first keystroke is the only setup keystroke, the key token is the stored key, and no flag is set. |
| Keybindings.PartsAreTokens | src/lib/Keybinding.ts:83-88 | Every part of a whitespace-free keystroke is whitespace-free and contains no separator literal. |
| Keybindings.BasePartsAppend | src/lib/Keybinding.ts:89-101 | Filtering out modifier parts distributes over concatenation. |
| Keybindings.BasePartsEmpty | src/lib/Keybinding.ts:89-105 | No part becomes the key iff every part is a modifier name. |
| Keybindings.GetTitleFromKey | src/lib/Keybinding.ts:50-61 | A non-empty key has a non-empty title. |
| Keybindings.TitlesFromTable | src/lib/Keybinding.ts:30-53 | Table keys take their table title: `escape` is `ESC`, `up` is `▲`. |
| Keybindings.TitleOfNumpadName | src/lib/Keybinding.ts:54-56 | `numpad_add` is titled `Numpad ADD`. |
| Keybindings.TitleOfNumpadDigit | src/lib/Keybinding.ts:57-59 | `numpad1` is titled `Numpad 1`, without upper-casing. |
| Keybindings.TitleOfModifier | src/lib/Keybinding.ts:60 | `ctrl` falls through to upper case: `CTRL`. |
| Keybindings.TitleOfPlainKey | src/lib/Keybinding.ts:60 | `f1` is titled `F1`. |
| Keybindings.ToRaw | src/lib/Keybinding.ts:151-163 | The raw record has the stored key, command and args. Its `when` is never empty and, when present, is the binding's; for a binding the constructor built, it is exactly the binding's. |
| Keybindings.RawRoundTrip | src/lib/Keybinding.ts:75-107 | Parsing then `toRaw` gives back the same record iff its key is a single key token and its `when` is not `""`. |
| Keybindings.SplitIntoHalves | src/lib/Keybinding.ts:167-173 | Fails iff the key is empty. Otherwise `(prefix ?? "") + baseKey` is the key and the base key is non-empty. A prefix has length at least 2 and ends in a separator. With a prefix, the base key has no separator before its last character; without one, the key has no separator strictly inside it. |
| Keybindings.LastSeparatorBetween | src/lib/Keybinding.ts:168 | Finds the greatest separator index in a range, or reports that there is none. |
| Keybindings.ComplexityMeaning | src/lib/Keybinding.ts:164-166 | A key without separators has complexity 0. Otherwise the complexity is `10·(n−1)` plus the length of the first `n−1` tokens, written via the key length. `isComplex` holds iff the complexity is at least 10. |
| Keybindings.ComplexityOfSingleKey | src/lib/Keybinding.ts:186-190 | `k` has complexity 0. |
| Keybindings.ComplexityOfCtrlK | src/lib/Keybinding.ts:186-193 | `ctrl+k` has complexity 14. |
| Keybindings.ComplexityOfCtrlShiftK | src/lib/Keybinding.ts:186-193 | `ctrl+shift+k` has complexity 29. |
| Keybindings.KeysOfCtrlShiftK | src/lib/Keybinding.ts:148-150 | `toKeys` of `ctrl+shift+k` is `[ctrl, shift, k]`. |
| Keybindings.AsPositive | src/lib/Keybinding.ts:194-200 | Key, args and when are kept. The command loses one leading `-`: a deletion's is one shorter, an addition's is unchanged. The result is well formed, has no setup keystrokes and has no flags. |
| Keybindings.ComboIffWhitespace | src/lib/Keybinding.ts:108-110 | A constructed binding is a combo iff its raw key has whitespace, that is, iff it has setup keystrokes. |
| Keybindings.IsAdditionReadsKey | src/lib/Keybinding.ts:111-114 | `isAddition` tests the key, not the command: the deletion `-foo` on `ctrl+k` counts as an addition, and the addition `foo` on key `-` does not. |
| Keybindings.ToParts | src/lib/Keybinding.ts:145-147 | `toParts` has `2n−1` entries for the `n` tokens of `toKeys`, with the tokens at the even positions, and concatenates back to the key. |
| Keybindings.ToKeys | src/lib/Keybinding.ts:148-150 | At least one token, none holding a space or `+`. There is one token iff the key has no space or `+`, and then it is the key. |
| Keybindings.IsComplex | src/lib/Keybinding.ts:164-166 | True iff a key is set and it splits into more than one token; for an unset key the tested string `undefined` has no separator. |
| Keybindings.GetBaseKey | src/lib/Keybinding.ts:174-176 | Fails iff the key is empty; otherwise the base key is non-empty and no longer than the key. |
| Keybindings.BaseKeyIsSuffix | src/lib/Keybinding.ts:167-176 | For a non-empty key, the base key is the key's suffix of its own length. |
| Keybindings.GetPrefix | src/lib/Keybinding.ts:177-179 | Fails iff the key is empty. Otherwise `(prefix ?? "") + baseKey` is the key, and a prefix has length at least 2 and ends in a separator. |
| Keybindings.GetLogic | src/lib/Keybinding.ts:180-185 | A binding is a deletion iff its command starts with `-`. |
| Keybindings.GetComplexity | src/lib/Keybinding.ts:186-193 | 0 iff the key has no space or `+`; otherwise at least 10. |
| Keybindings.AsVisualization | src/lib/Keybinding.ts:115-147 | One entry per part, carrying that part. Connectors sit exactly at the odd positions: a space one is titled no-break space, `→`, space (`"\u00A0→ "`), a `+` one a single no-break space (`"\u00A0"`). A token is a modifier entry iff it names a modifier. Every non-connector entry is titled by `getTitleFromKey`. |
| Keybindings.VisualizationHasNoArrow | src/lib/Keybinding.ts:117-129 | A stored key has no space, so every connector is `+` with the no-break-space title `"\u00A0"`. |
| Keybindings.VisualizationExample | src/lib/Keybinding.ts:115-147 | `ctrl+up` is visualized as modifier `CTRL`, connector `"\u00A0"`, base key `▲`. |
| JsStrings.SplitOnWhitespace | src/lib/Keybinding.ts:83 | `split(/\s+/)` gives at least one piece, and no piece holds whitespace. |
| JsStrings.SplitOnWhitespaceCount | src/lib/Keybinding.ts:83-87 | There is more than one keystroke iff the key has whitespace; a key without whitespace is its only keystroke. |
| JsStrings.SplitOnWhitespaceContent | src/lib/Keybinding.ts:83 | The pieces of `split(/\s+/)` concatenate to the string with its whitespace removed, and every piece but the first and the last is non-empty. |
| JsStrings.SplitOnWhitespaceLast | src/lib/Keybinding.ts:83-84 | The last piece of `split(/\s+/)` is a suffix of the string: all of it, or preceded by whitespace. |
| JsStrings.SplitOnWhitespaceTwo | src/lib/Keybinding.ts:83-86 | Two whitespace-free pieces joined by one whitespace character split into exactly those two pieces. |
| JsStrings.SplitOn | src/lib/Keybinding.ts:88 | Splitting on a non-empty literal gives at least one piece; `SplitOnJoin`, `SplitOnPieces` and `SplitOnAbsent` state the rest. |
| JsStrings.SplitOnJoin | src/lib/Keybinding.ts:88 | Splitting on the literal and joining with it gives back the keystroke. |
| JsStrings.SplitOnPieces | src/lib/Keybinding.ts:88 | No piece of the split contains the separator. |
| JsStrings.SplitOnAbsent | src/lib/Keybinding.ts:88 | A keystroke without the separator is its only part. |
| JsStrings.SplitKeys | src/lib/Keybinding.ts:148-150 | `toKeys` gives at least one token, and no token holds a space or `+`. |
| JsStrings.SplitKeysCount | src/lib/Keybinding.ts:164-166 | There is exactly one token iff the key has no space or `+`, and then the token is the key. |
| JsStrings.SplitKeysLength | src/lib/Keybinding.ts:186-193 | The token lengths plus one per separator add up to the key length. |
| JsStrings.SplitParts | src/lib/Keybinding.ts:146 | `split(/([ +])/)` gives at least one entry; `SplitPartsShape` and `SplitPartsConcat` state its shape and contents. |
| JsStrings.SplitPartsShape | src/lib/Keybinding.ts:145-150 | `toParts` has `2n−1` entries for `n` tokens. The tokens sit at the even positions and single separators at the odd ones. |
| JsStrings.SplitPartsSeparatorPositions | src/lib/Keybinding.ts:117-130 | An entry of `toParts` is `" "` or `"+"` exactly at the odd positions. |
| JsStrings.SplitPartsConcat | src/lib/Keybinding.ts:145-147 | Concatenating the parts gives back the key. |
| JsStrings.SplitPartsNoSpace | src/lib/Keybinding.ts:117-123 | A whitespace-free key has no `" "` part. |
| JsStrings.SplitAtFirstSeparator | src/lib/Keybinding.ts:145-150 | A separator-free token and one separator in front of the rest add one token, or one token and one separator part. |
| JsStrings.ToUpper | src/lib/Keybinding.ts:55 | Upper-casing keeps the length and maps each character. |
| JsStrings.ToUpperProperties | src/lib/Keybinding.ts:60 | No lower-case ASCII letter survives, and upper-casing is idempotent. |
| JsStrings.PreventStart | src/lib/Keybinding.ts:198 | One leading `-` is removed; a string without it is unchanged. |
| KeybindingOrder.IndexOf | src/lib/Keybinding.ts:225 | `indexOf` is the first index holding the key. |
| KeybindingOrder.BaseKeysTableOrder | src/lib/Keybinding.ts:213-228 | A table key sorts before a non-table key, never tying with it. Two table keys are ordered by their table index and tie only when equal. |
| KeybindingOrder.BaseKeysAntisymmetric | src/lib/Keybinding.ts:215-228 | Under a comparator, swapping two base keys flips the sign of their comparison. |
| KeybindingOrder.BaseKeysDistinct | src/lib/Keybinding.ts:215-228 | Under a collator that is 0 only on equal strings, different base keys never tie. |
| KeybindingOrder.BaseKeysTransitive | src/lib/Keybinding.ts:215-228 | The base-key order is transitive. |
| KeybindingOrder.CompareFields | src/lib/Keybinding.ts:213-237 | Answers iff both keys are non-empty; otherwise it is the split-into-halves error. |
| KeybindingOrder.CompareTo | src/lib/Keybinding.ts:201-238 | A deletion against an addition gives −1 and the reverse 1, whether or not a key is set. Two bindings with non-empty keys always get an answer. Any error is the empty-key split error. The recursion on two deletions terminates because the command shrinks. |
| KeybindingOrder.DeletionsFirst | src/lib/Keybinding.ts:204-209 | A deletion against an addition gives −1, and the reverse gives 1, whatever the keys, set or not. |
| KeybindingOrder.FieldsAntisymmetric | src/lib/Keybinding.ts:213-237 | For two additions, swapping flips the sign. |
| KeybindingOrder.FieldsZeroIff | src/lib/Keybinding.ts:213-237 | Two additions tie iff base key, complexity, command and `when ?? ""` agree. |
| KeybindingOrder.FieldsTransitive | src/lib/Keybinding.ts:213-237 | For additions, "before" is transitive. |
| KeybindingOrder.PositiveSamePosition | src/lib/Keybinding.ts:210-212 | Two deletions tie on their positive forms iff they tie themselves. |
| KeybindingOrder.CompareAntisymmetric | src/lib/Keybinding.ts:201-238 | Under a comparator, swapping the two bindings keeps whether there is an answer, and flips its sign. |
| KeybindingOrder.CompareZeroIff | src/lib/Keybinding.ts:201-238 | Under a collator that is 0 only on equal strings, the comparison is 0 iff base key, complexity, command and `when ?? ""` agree. |
| KeybindingOrder.CompareReflexive | src/lib/Keybinding.ts:201-238 | Under a comparator, a binding with a non-empty key compares 0 with itself. |
| KeybindingOrder.SamePositionTies | src/lib/Keybinding.ts:201-237 | Under a comparator, two bindings with non-empty keys that agree on base key, complexity, command and `when` compare 0. |
| KeybindingOrder.CompareTransitive | src/lib/Keybinding.ts:201-238 | Under a comparator, "before" is transitive across deletions and additions. |
| KeybindingOrder.SortRaw | src/lib/Keybinding.ts:241-243 | If the first record does not parse, its error is the answer; otherwise the second record's error is. Two parsed records of different logic give −1 when the first is a deletion and 1 otherwise. A multiple-base-keys error names one of the two records; any other error is the empty-key split error. Two non-empty single-token keys always compare. |
| KeybindingOrder.TokenParses | src/lib/Keybinding.ts:72-107 | A single key token always parses, to itself. |
| KeybindingOrder.SortRawAntisymmetric | src/lib/Keybinding.ts:241-243 | Under a comparator, for records that parse, swapping them flips the sign of `sortRaw`. |
| KeybindingOrder.OrdinalIsCollation | src/lib/Keybinding.ts:27 | The lexicographic stand-in is a comparator and a collator in the sense the order lemmas assume. |
| KeybindingOrder.TableOrderExample | src/lib/Keybinding.ts:215-227 | With table `[f1, a]`: `f1` sorts before `a` by index, `a` before `z` as a table key, and `x` before `z` by the collator. |
| KeybindingOrder.CompareShortKeys | src/lib/Keybinding.ts:213-228 | Two distinct additions with keys of at most two characters compare by their base keys. |
| KeybindingOrder.DeletionSortsFirstExample | src/lib/Keybinding.ts:241-243 | `sortRaw` puts `-foo` on `ctrl+k` before `foo` on `ctrl+k`. |
| KeybindingOrder.TieExample | src/lib/Keybinding.ts:213-237 | `a+k` and `b+k` share base key and complexity, so they tie for any collator meeting `IsComparator`. |
| KeybindingOrder.TwoTokenKeysSamePosition | src/lib/Keybinding.ts:167-193 | Keys `x+z` and `y+z` of one-character tokens agree on base key and complexity. |
| KeybindingOrder.BaseKeyOfTwoTokens | src/lib/Keybinding.ts:167-193 | A key `x+y` of one-character tokens has base key `y` and complexity 11. |
| ConvertGlobals.NewExclusionRule | src/workflows/build/convertGlobals.ts:22-37 | The rule is untitled iff its input is an array whose first element is not `command`. `["command"]` gives a command rule with value undefined, titled `command undefined`. |
| ConvertGlobals.Test | src/workflows/build/convertGlobals.ts:39-49 | A rule without a type, or a command rule without a value, matches nothing. |
| ConvertGlobals.RuleSemantics | src/workflows/build/convertGlobals.ts:22-49 | A string rule matches exactly that key; a regex rule its pattern's language; `["command", c]` exactly command `c`. Any other array never matches. |
| ConvertGlobals.GetTitle | src/workflows/build/convertGlobals.ts:51-61 | Only an untyped rule has no title. A string rule's title is its string, a regex rule's its source, a command rule's `command ` plus its value. |
| ConvertGlobals.FixedPatterns | src/workflows/build/convertGlobals.ts:63-72 | The first nine rules are patterns. Each title is the fixed modifier prefix followed by the base key, or the bracketed group of base keys, then `$`. |
| ConvertGlobals.FixedPatternInput | src/workflows/build/convertGlobals.ts:64-72 | Each pattern's text is the one its base keys give. |
| ConvertGlobals.UpDownSource | src/workflows/build/convertGlobals.ts:64 | The arrow-key pattern's text is the prefix, then the group of `up`, `left`, `right` and `down`, then `$`. |
| ConvertGlobals.FixedStaticAndCommandRules | src/workflows/build/convertGlobals.ts:73-83 | Rules 9 to 17 are static. Rule 18 is the command rule for `editor.action.refactor`, titled `command editor.action.refactor`. Every fixed rule has a title. |
| ConvertGlobals.FixedInputKinds | src/workflows/build/convertGlobals.ts:63-83 | The list has 19 inputs: nine regular expressions, nine strings, one command array. |
| ConvertGlobals.FirstMatch | src/workflows/build/convertGlobals.ts:93-101 | The index found matches the entry and no earlier rule does. None means no rule matches. |
| ConvertGlobals.FirstTitle | src/workflows/build/convertGlobals.ts:96-97 | There is a title to count iff some rule matches. |
| ConvertGlobals.Partition | src/workflows/build/convertGlobals.ts:86-108 | The loop's `result`, `excluded` and counter are exactly `Kept`, `Excluded` and `ExclusionCounts` of the input. |
| ConvertGlobals.PartitionSizes | src/workflows/build/convertGlobals.ts:91-108 | Every entry lands in exactly one list: the two lengths add up to the input length. |
| ConvertGlobals.PartitionAppend | src/workflows/build/convertGlobals.ts:91-108 | Both lists keep input order: partitioning a concatenation concatenates the partitions. |
| ConvertGlobals.ExcludedMembers | src/workflows/build/convertGlobals.ts:93-98 | An entry is excluded iff it is in the input and some rule matches it. |
| ConvertGlobals.KeptMembers | src/workflows/build/convertGlobals.ts:102-107 | `result` holds exactly the deletions of the input entries that no rule matches. |
| ConvertGlobals.KeptAreDeletions | src/workflows/build/convertGlobals.ts:104-107 | A kept entry's command starts with `-`. It is some input entry, matched by no rule, with `-` put before its command and nothing else changed. |
| ConvertGlobals.AsDeletion | src/workflows/build/convertGlobals.ts:104-107 | The written-back entry's command starts with `-`, and removing that `-` gives the entry's command. Every other field is the entry's. |
| ConvertGlobals.Feed | src/workflows/build/convertGlobals.ts:97 | `feed` adds the title to the counter's keys and raises its count by one, from 0 when it was new. Every other count is unchanged. |
| ConvertGlobals.SumRemove | src/workflows/build/convertGlobals.ts:89 | The total of the counter does not depend on which title is taken out first. |
| ConvertGlobals.SumFeed | src/workflows/build/convertGlobals.ts:97 | `feed` raises the total by one. |
| ConvertGlobals.CountsSum | src/workflows/build/convertGlobals.ts:89-97 | The counts add up to the number of excluded entries. |
| ConvertGlobals.CountedTitles | src/workflows/build/convertGlobals.ts:96-97 | A title has a count iff it is the first matching title of some entry, and then the count is positive. |
| ConvertGlobals.CountsAreTitleCounts | src/workflows/build/convertGlobals.ts:89-97 | A counted title's count is exactly the number of entries whose first matching title it is; a title that is not counted has no such entry. |
| ConvertGlobals.ExcludedExample | src/workflows/build/convertGlobals.ts:72 | `ctrl+shift+alt+space` is excluded. |
| ConvertGlobals.KeptExample | src/workflows/build/convertGlobals.ts:64-83 | `alt+ctrl+up` matches no fixed rule, since no prefix lists `alt` before `ctrl`. |
| ConvertGlobals.NoPatternMatch | src/workflows/build/convertGlobals.ts:64-72 | A key that keeps a separator after every fixed prefix it starts with matches no pattern of plain base keys. |

## Left out

- `src/workflows/buildHtml/build.ts` is not part of this model. It is file, template and Actions I/O.
- Reading `src/global.jsonc` (convertGlobals.ts:84-85): `data` is a parameter of `Partition`.
- The YAML output, `core.info` and group logging, and the `toObjectSortedByValues` ordering of the log.
- The `keystrokeCounter` block (convertGlobals.ts:119-131): that counter is never fed, so the block only logs.
- `KeyCounter` is modelled as a map from title to count, where `feed` adds one.
- `Intl.Collator('de')`: the collator is a parameter. The order lemmas assume only `IsComparator` of it; ICU's actual order is not modelled.
- KeybindingOrder.CompareZeroIff, FieldsZeroIff and BaseKeysDistinct also assume `IsCollation`, that the collator answers 0 only on equal strings. ICU's collator does not meet that: it ties canonically equivalent strings and strings that differ only in ignorable characters. With the `!==` test of Keybinding.ts:234, two different commands can then tie while a third separates them by `when`, so under ICU ties are not transitive and `compareTo` is not a strict weak ordering. The lemmas proved under `IsComparator` alone (antisymmetry, transitivity of "before", reflexivity, `SamePositionTies`) do not depend on this.
- The contents of `lib/keySorting.js`: the table is a parameter.
- Regular expressions in general:
  - the fixed patterns are modelled as a prefix set plus a base-key set, which is the language each literal denotes;
  - `super-regex`'s `firstMatch` is written out as the greedy match of its one pattern.
- `toUpperCase` upper-cases ASCII letters only.
- `titleMap` lookups that would hit `Object.prototype` properties (such as `constructor`) are not modelled.
- `preventStart` is taken to remove one leading `-`; the library itself is not part of this model.
- A raw key whose final keystroke is only modifiers leaves `#key` unset. `isComplex` then tests the string `undefined` and gives false, which `IsComplex` models. `toRaw` copies `undefined`, which `ToRaw` (requiring a key) does not model. `isAddition`, `toParts`, `toKeys`, `asVisualization`, `getComplexity` and `asPositive` call a string method on `undefined` and throw a `TypeError`; the model requires a key for them. `splitIntoHalves`, `getBaseKey` and `getPrefix` hand `undefined` to `super-regex`, whose behaviour then is that library's; the model requires a key.
- KeybindingOrder.SortRaw: two parsed records of the same logic where a key is unset are not modelled (`KeysComparable` excludes them). Two such deletions throw a `TypeError` in `asPositive`; two such additions reach `splitIntoHalves` with `undefined`. A deletion against an addition is modelled whether or not a key is set.
- KeybindingOrder.CompareTo: two bindings of the same logic are compared only when both keys are set, for the same reason.
- Keybindings.SplitIntoHalves: `.` is modelled as matching every character. That is right for every key the constructor stores, since a stored key holds no whitespace and so no line terminator. A key with a line terminator would split differently: on `a\n+b` the regular expression gives base key `+b`, the model `b`.
- String lengths: JavaScript's `length` and `slice` count UTF-16 code units, while a Dafny string is a sequence of Unicode scalar values. For keys with characters outside the Basic Multilingual Plane, `getComplexity` (Keybinding.ts:186-193) and the title slices of `getTitleFromKey` count differently from the source.
- The sorting of the keymap itself (an `Array.prototype.sort` call with `sortRaw`) lies outside the two files. Only the comparison's properties are proved.
- The modifier flag fields are computed and stored but never read.
- The unused `title` import of Keybinding.ts:1 is not modelled.
- `isCombo` and `isAddition` are never called in the two files. `ComboIffWhitespace` and `IsAdditionReadsKey` state what they answer. `isAddition` tests the key, not the command, as written.
