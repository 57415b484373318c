# Path title plugin: a Dafny model

This project models the core of a note-taking-application plugin that shows a rewritten form of
each open document's folder path above the document's title.

- **Rule pipeline** (`src/utils.ts`): an ordered list of path settings, each a kind tag, a match
  and a replacement, is folded over the folder path from left to right. Each rule sees the
  previous rule's output. There are four kinds:
  - `exact`: replaces the whole path when it equals the match.
  - `folder`: replaces every `/`-separated segment equal to the match.
  - `text`: replaces the first occurrence of the match.
  - `regexp` (legacy spelling `fuzzy`): a global regular-expression replace.

  A rule with an empty match does nothing. An unknown kind does nothing.
- **Dropdown helpers** (`src/utils.ts`): the unique folder names of a list of paths, in order of
  first appearance; the identity choice record; the quote and slash escaping used in rule headings.
- **Rule-list editor** (`src/plugin.ts`): the settings tab edits the rule list in place. It can
  append a rule from six buttons, remove a rule while remembering it in a one-slot undo entry,
  undo, dismiss the undo entry, move a rule up or down, and edit a rule's fields. It renders the
  list with the removed rule shown again at its old index. The font size falls back to a default.
- **Legacy form** (`main.ts`): a list of `[original, replacement]` pairs is folded into a lookup
  table, where a later pair wins. The table chooses each pane's title. The list is edited by
  appending or removing a pair and re-sorting.

Module layout:
- `Wrappers` (wrappers.dfy): `Option` and `Result`.
- `JsStrings` (js_strings.dfy): the JavaScript string operations the rules use. These are
  `split("/")`, `join("/")`, `indexOf`, and `replace` with a string pattern. `replace` expands
  `$$`, `$&`, `` $` `` and `$'` in the replacement, as in section 22.1.3.18.1 (GetSubstitution) of
  ECMA-262, 2022 edition.
- `JsArrays` (js_arrays.dfy): `splice`, including its clamping and its negative start index, and
  `sort` with no comparator.
- `Types` (types.dfy): the `PathSettings` record and the default font size.
- `Utils` (utils.dfy), `Plugin` (plugin.dfy), `Legacy` (legacy.dfy): one module per core source file.

Naming: the record fields `type` and `match` are Dafny keywords, so they are called `kind` and
`pattern` here.

`arrayToChoices` appears twice in the source, identically, at `src/utils.ts:59-64` and
`main.ts:49-54`. `Utils.ArrayToChoices` models both.

The regular-expression engine is a function parameter `re(pattern, replace, input)`. It returns
`None` when `new RegExp(pattern, "gu")` would throw. The fold then stops with that error, as the
exception would stop `applyPathSettings`.

The code has no memoising cache: `saveSettings` recomputes every pane (`src/plugin.ts:182-185`).
The move buttons are disabled at the ends of the list (`src/plugin.ts:558-561`, `583`). The model
treats a disabled button as a no-op. Two lemmas show what the unguarded splices would do at the ends.

## Model

| member | source | states |
|---|---|---|
| `JsStrings.Join` | src/utils.ts:26 | `join("/")` of n slash-free segments puts exactly n - 1 slashes between them |
| `JsStrings.Split` | src/utils.ts:19 | `split("/")` gives at least one piece and no piece contains `/` |
| `JsStrings.SplitLength` | src/utils.ts:19 | a path with n slashes splits into n + 1 segments |
| `JsStrings.JoinSplit` | src/utils.ts:18-26 | joining the split segments with `/` gives the path back |
| `JsStrings.SplitJoin` | src/utils.ts:18-26 | splitting the join of one or more slash-free segments gives the same segments |
| `JsStrings.IndexOf` | src/utils.ts:34-37 | the result is an occurrence of the match with none earlier; no result means no occurrence anywhere |
| `JsStrings.Substitution` | src/utils.ts:34-37 | a replacement without `$` is inserted literally |
| `JsStrings.SubstitutionForms` | src/utils.ts:34-37 | `$$`, `$&`, `` $` `` and `$'` expand to a dollar sign, the match, the text before it and the text after it |
| `JsStrings.SubstitutionCopies` | src/utils.ts:34-37 | any other character, including a `$` that starts none of those forms, is copied to the replacement text |
| `JsStrings.ReplaceFirst` | src/utils.ts:34-37 | a string-pattern `replace`: unchanged when the pattern does not occur; otherwise the text before the first occurrence and after it are kept |
| `JsStrings.ReplaceFirstLiteral` | src/utils.ts:34-37 | with a `$`-free replacement, exactly the first occurrence is replaced and the text around it is kept |
| `JsArrays.Splice` | src/plugin.ts:434-438 | what `splice` leaves: the elements before the actual start, then the items, then a suffix of the old list; with no deletion the list grows by exactly the items |
| `JsArrays.SpliceStart` | src/plugin.ts:587-592 | `splice` starts at the given index when it is in range; a negative start counts from the end; both ends clamp |
| `JsArrays.SpliceRemove` | src/plugin.ts:543 | `splice(i, 1)` at a valid index removes exactly element i and shortens the list by one |
| `JsArrays.SpliceInsert` | src/plugin.ts:434-438 | `splice(i, 0, x)` puts x at index i and shifts the rest up |
| `JsArrays.RemoveAt` | src/plugin.ts:543 | removing index i keeps every element before i and moves each element after i down by one |
| `JsArrays.InsertAt` | src/plugin.ts:434-438 | inserting at i keeps the prefix, places x at i and moves the rest up by one |
| `JsArrays.RemoveInsertInverse` | src/plugin.ts:434-440 | inserting the removed element at its index restores the list, and removing an inserted element does too |
| `JsArrays.Swap` | src/plugin.ts:563-570 | the two elements are exchanged, all others stay, and the result is a permutation |
| `JsArrays.LexTotal` | main.ts:308 | any two strings are ordered one way or the other |
| `JsArrays.InsertSorted` | main.ts:308 | inserting into a sorted list keeps it sorted and adds exactly that element |
| `JsArrays.DefaultSort` | main.ts:308 | the default sort yields the same elements (a permutation) in order of their string forms |
| `Utils.KindOf` | src/utils.ts:10-38 | `regexp` and `fuzzy` select the regular-expression kind, and `folder`, `exact` and `text` their own kinds; any other tag is unrecognised |
| `Utils.ReplaceSegments` | src/utils.ts:18-26 | one segment per segment: a segment equal to the match becomes the replacement and every other segment is kept |
| `Utils.ApplyRule` | src/utils.ts:9-40 | a rule with an empty match or an unknown kind keeps the path; the rule fails exactly when it is a live regular-expression rule the engine rejects, with an error naming its pattern |
| `Utils.ApplyPathSettings` | src/utils.ts:4-42 | a list whose rules are all blank or of an unknown kind returns the path unchanged |
| `Utils.NoRulesIdentity` | src/utils.ts:8 | with no rules the path is returned unchanged |
| `Utils.ApplyAppend` | src/utils.ts:8-41 | applying two lists one after the other equals applying their concatenation, so later rules see earlier rules' output |
| `Utils.LastRuleSeesPriorOutput` | src/utils.ts:8-41 | a rule appended to a list acts on the output of all the rules before it, or an earlier failure stands |
| `Utils.NonBlank` | src/utils.ts:9 | the kept rules are exactly the rules of the list with a non-empty match |
| `Utils.BlankRule` | src/utils.ts:9 | a single rule with an empty match leaves the path unchanged, whatever its kind |
| `Utils.BlankRulesIgnored` | src/utils.ts:9-40 | dropping every rule with an empty match, whatever its kind, changes no result |
| `Utils.ExactRule` | src/utils.ts:28-32 | an `exact` rule with a non-empty match yields its replacement if the whole path equals the match, and the path unchanged otherwise |
| `Utils.FolderRule` | src/utils.ts:17-27 | a `folder` rule keeps the segment count; each segment equal to the match becomes the replacement and every other segment stays in place |
| `Utils.FolderRuleNoMatch` | src/utils.ts:17-27 | a `folder` rule whose match equals no segment leaves the path unchanged |
| `Utils.TextRule` | src/utils.ts:33-38 | a `text` rule replaces only the first occurrence of the match; the path is unchanged when the match does not occur |
| `Utils.FuzzyToRegExp` | src/utils.ts:10-13 | every `fuzzy` tag becomes `regexp` and every other rule is kept as it is |
| `Utils.FuzzyIsRegExp` | src/utils.ts:10-16 | a list with `fuzzy` tags gives the same result as the list with those tags spelt `regexp` |
| `Utils.UnrecognisedKindIgnored` | src/utils.ts:9-40 | a rule with an unknown kind tag leaves the path unchanged |
| `Utils.OnlyRegExpRulesFail` | src/utils.ts:14-15 | without a live regular-expression rule the fold always succeeds; an error names the pattern of such a rule in the list |
| `Utils.ExactExamples` | src/utils.test.ts:7-35 | the exact-path cases of the test file |
| `Utils.FolderExamples` | src/utils.test.ts:37-70 | the folder cases of the test file, one rule and two rules |
| `Utils.TextExample` | src/utils.test.ts:72-85 | the text case of the test file |
| `Utils.MixedExample` | src/utils.test.ts:102-119 | in the mixed case the regular expression is given the folder rule's output |
| `Utils.FolderNamesOf` | src/utils.ts:48-52 | a path other than `/` contributes slash-free segments that join back to the path; `/` contributes none |
| `Utils.AllFolderNames` | src/utils.ts:47-54 | the folder names of all the paths in order, none containing a slash |
| `Utils.Unique` | src/utils.ts:47-55 | the ordered set holds no value twice and exactly the values of the input |
| `Utils.FirstIndex` | src/utils.ts:47-55 | the index of the first occurrence of a value |
| `Utils.UniqueInFirstSeenOrder` | src/utils.ts:47-55 | the ordered set lists values in order of first appearance |
| `Utils.AddAll` | src/utils.ts:49-51 | the inner loop adds each segment of a path to the ordered set |
| `Utils.GetAllFolderNames` | src/utils.ts:46-56 | the loops produce the ordered set of the folder names of all paths except `/` |
| `Utils.AllFolderNamesMembers` | src/utils.ts:47-54 | a name is listed exactly when it is a segment of some path other than `/` |
| `Utils.FolderNamesSpec` | src/utils.ts:46-56 | the folder names hold no duplicates and exactly the segments of the paths other than `/`, in order of first appearance |
| `Utils.FolderNamesExample` | src/utils.test.ts:122-127 | the folder-names case of the test file |
| `Utils.ArrayToChoices` | src/utils.ts:59-64 | the choice record has exactly the items as keys and maps each to itself |
| `Utils.EscapeQuotes` | src/utils.ts:66-68 | as written: unchanged without a double quote; otherwise one backslash is inserted before the first double quote only |
| `Utils.EscapeSlashes` | src/utils.ts:70-72 | as written: unchanged without a slash; otherwise one backslash is inserted before the first slash only |
| `Utils.EscapeFirstShape` | src/utils.ts:66-72 | replacing the first occurrence inserts one backslash before the first occurrence only |
| `Utils.EscapeQuotesMissesSecondQuote` | src/utils.ts:66-68 | a text with two double quotes keeps the second one unescaped |
| `Utils.EscapeSlashesMissesSecondSlash` | src/utils.ts:70-72 | a text with two slashes keeps the second one unescaped |
| `Utils.EscapeAll` | src/utils.ts:66-72 | as intended: every occurrence of the character is preceded by a backslash |
| `Utils.UnescapeEscapeAll` | src/utils.ts:66-72 | removing the added backslashes gives the original text back |
| `Utils.EscapeQuotesAll` | src/utils.ts:66-68 | as intended: every double quote is escaped and nothing is lost |
| `Utils.EscapeSlashesAll` | src/utils.ts:70-72 | as intended: every slash is escaped and nothing is lost |
| `Plugin.FontSizeOrDefault` | src/plugin.ts:138-141 | the font size in effect is never empty: the setting when it is set, otherwise the default `75%` of src/constants.ts:5 |
| `Plugin.NewRule` | src/plugin.ts:300-404 | the two dropdown buttons create a rule whose match and replacement are both the selected value; the other four create an empty match and replacement; each has its button's kind |
| `Plugin.AddedRuleKeepsTitles` | src/plugin.ts:300-404 | a rule just added by any button leaves every computed title as it was |
| `Plugin.MoveDownSplices` | src/plugin.ts:563-570 | the two splices of "move down" swap the rule with the next one |
| `Plugin.MoveUpSplices` | src/plugin.ts:585-592 | the two splices of "move up" swap the rule with the previous one |
| `Plugin.MoveUpAtFirstUnguarded` | src/plugin.ts:579-592 | without the guard at index 0, the first rule would land just before the last one |
| `Plugin.MoveDownAtLastUnguarded` | src/plugin.ts:552-570 | on the last rule the splices of "move down" leave the list as it was |
| `Plugin.Enumerate` | src/plugin.ts:409 | each rule is paired with its own index |
| `Plugin.SettingTab.constructor` | src/plugin.ts:237-241 | the tab starts on the loaded settings with no undo entry |
| `Plugin.SettingTab.SetFontSize` | src/plugin.ts:266-269 | the font-size dropdown stores the chosen value and changes nothing else |
| `Plugin.SettingTab.Add` | src/plugin.ts:300-405 | every add button appends exactly one rule at the end and clears the undo entry |
| `Plugin.SettingTab.Remove` | src/plugin.ts:542-546 | removal deletes exactly the rule at the index, keeps the others in order and records the index and the removed rule for undo |
| `Plugin.SettingTab.Undo` | src/plugin.ts:433-441 | undo re-inserts the recorded rule at the recorded index and clears the entry; with no entry nothing changes |
| `Plugin.SettingTab.DismissUndo` | src/plugin.ts:446-449 | dismissing clears the undo entry and leaves the rules unchanged |
| `Plugin.SettingTab.MoveDown` | src/plugin.ts:552-573 | disabled on the last rule; otherwise swaps the rule with the next one, keeping the length and the other rules |
| `Plugin.SettingTab.MoveUp` | src/plugin.ts:579-595 | disabled on the first rule; otherwise swaps the rule with the previous one |
| `Plugin.SettingTab.SetKind` | src/plugin.ts:505-512 | the type dropdown changes only that rule's kind tag |
| `Plugin.SettingTab.SetPattern` | src/plugin.ts:516-522 | the match field changes only that rule's match |
| `Plugin.SettingTab.SetReplace` | src/plugin.ts:526-532 | the replacement field changes only that rule's replacement |
| `Plugin.SettingTab.RenderEntries` | src/plugin.ts:409-416 | the rendered entries are the indexed rules with the removed rule spliced in at its recorded index; entries before it keep their index and entries after it are shifted by one |
| `Plugin.RemoveThenUndo` | src/plugin.ts:434-440 | removing a rule and then undoing restores the rule list exactly, with nothing left to undo |
| `Plugin.MoveDownThenUp` | src/plugin.ts:552-592 | moving a rule down and then back up restores the list |
| `Legacy.MappingString` | main.ts:308 | the string form `sort` compares a pair by: the original path, a comma, then the replacement |
| `Legacy.MappingTable` | main.ts:76-82 | every entry of the table comes from a pair in the list |
| `Legacy.PaneTitle` | main.ts:90-95 | a mapped folder gets its table value; an unmapped one gets its default title (empty for `/`, the path otherwise) |
| `Legacy.LastIndexOf` | main.ts:76-82 | the last pair for a path, with no later pair for it; none when no pair names it |
| `Legacy.MappingTableLastWins` | main.ts:76-82 | the table has a key exactly for the pairs' original paths, and a later pair for the same path wins |
| `Legacy.BuildMappingTable` | main.ts:76-82 | the reduce loop builds the same table as the fold |
| `Legacy.PaneTitleChoice` | main.ts:90-95 | a mapped folder gets its last pair's replacement; an unmapped `/` gets the empty title; any other unmapped folder gets its own path |
| `Legacy.TableOfDistinct` | main.ts:76-82 | with distinct original paths, the table maps k to v exactly when the pair `[k, v]` is in the list |
| `Legacy.KeysOfTable` | main.ts:76-82 | the table's keys are the original paths of the pairs |
| `Legacy.SameTable` | main.ts:76-82 | two lists with the same pairs and distinct original paths give the same table |
| `Legacy.PermutationKeepsDistinct` | main.ts:308 | reordering a list keeps its original paths distinct |
| `Legacy.SortKeepsTable` | main.ts:308 | re-sorting changes no table entry when no original path has two pairs |
| `Legacy.AddIdentityKeepsTitles` | main.ts:304-308 | adding the identity pair for a new folder and re-sorting changes no title |
| `Legacy.RemoveKeepsDistinct` | main.ts:355 | removing a pair keeps the original paths distinct |
| `Legacy.RemovedPairs` | main.ts:355 | when no original path has two pairs, a pair is left exactly when it was in the list and its path is not the removed pair's |
| `Legacy.TableAfterRemove` | main.ts:355 | when no original path has two pairs, removing a pair removes exactly its path's entry from the table |
| `Legacy.RemoveMappingTitles` | main.ts:355-356 | after removing a pair and re-sorting, its path gets its default title back and every other title is unchanged |
| `Legacy.LegacySettingTab.AddMapping` | main.ts:304-308 | the list grows by one, holds the old pairs plus `[f, f]`, and is sorted |
| `Legacy.LegacySettingTab.RemoveMapping` | main.ts:355-356 | the list shrinks by one, holds the old pairs minus the removed one, and is sorted |
| `Legacy.LegacySettingTab.SetOriginal` | main.ts:330 | the original-path field writes into its pair only, with no re-sort |
| `Legacy.LegacySettingTab.SetReplacement` | main.ts:342 | the replacement field writes into its pair only, with no re-sort |

## Left out

- Pane rendering (`setPaneTitles`, `cleanupLeaf`, `onunload` in both versions) is left out. It is DOM and style work against the host application. The model stops at the computed title.
- Host events, debouncing and layout-ready callbacks are left out. They are asynchronous host wiring.
- `loadSettings` and `saveSettings` are left out. They are foreign asynchronous storage calls. The model's state is the in-memory settings, and every handler's save is a step with no effect on it.
- `getFolderPaths` and `getFolders` are left out. They traverse the host vault. Their results reach the model only as the dropdown's selected value and as the list given to `GetAllFolderNames`.
- Re-rendering after each handler (`display()`) and the heading and description texts are left out. They are UI only. As a consequence, a legacy `fuzzy` rule looks up `replacementTypeToUi["fuzzy"]` when its heading is rendered, and that lookup is not modelled.
- The regular-expression kind is an abstract function parameter, not a regex engine. ECMAScript pattern matching and `$n` substitution are outside the model.
- The legacy style dropdowns (position, border size, font size) and the `main.ts` defaults are left out. They only store a value for the DOM code.
- Each handler is modelled as one atomic step. In the source, Remove and Undo set or clear the undo entry only after `await this.plugin.saveSettings()` (`src/plugin.ts:434-440`, `543-545`), and nothing is shown until `display()` re-renders. Interleavings with other events during that await are not modelled.
- Object identity is left out. Rules and pairs are values here. The source recognises the undo placeholder by reference, and the model marks it with its own `Removed` entry instead.
- JavaScript object keys inherited from `Object.prototype` are left out. For example, a folder named `constructor` counts as present in a `{}` lookup. The tables and choice records here are plain maps.
- `JsArrays.DefaultSort`: compares strings by Unicode code points, whereas JavaScript compares UTF-16 code units. The two orders differ only between characters above U+FFFF and those from U+E000 to U+FFFF. The sort's stability is not stated.
- `Utils.FolderRule`: states the segment-wise result only for a replacement without `/`. With a `/` in the replacement, the result is still the join of the replaced segments (the definition of `ApplyRule`), but its segments no longer line up with the path's.
- `Utils.TextRule`: states the literal result only for a replacement without `$`. With `$`, the result is the GetSubstitution expansion defined by `JsStrings.Substitution`.
- `Legacy.SortKeepsTable`: holds only when no original path has two pairs. With duplicates, the sort order decides which pair is last and so which replacement wins.
- `Legacy.AddIdentityKeepsTitles`: also assumes distinct original paths, a folder without a pair, and a folder other than `/`. Adding `[/, /]` changes the root's title from empty to `/`.
- `Legacy.TableAfterRemove`: holds only when no original path has two pairs. The source allows duplicates, since pressing add twice for the same folder pushes `[f, f]` twice (`main.ts:304-308`). With duplicates, removing one of them can leave its path in the table with the other pair's value.
- `Utils.NonBlank`: states which rules are kept, not their order. The order is the list's own, by the definition.
- `Legacy.RemovedPairs`: holds only when no original path has two pairs. With duplicates, removing one pair keeps the other pair for the same path.
- `Legacy.RemoveMappingTitles`: assumes distinct original paths, for the same reason.

## Findings

| source | as written | input that shows it | evidently intended | confidence | as-written member | corrected member |
|---|---|---|---|---|---|---|
| src/utils.ts:66-68 | `s.replace('"', '\\"')` with a string pattern escapes only the first double quote | a match of two double quotes becomes a backslash and two quotes, leaving the second quote bare | every double quote escaped in the rule heading | medium, not executed | `Utils.EscapeQuotesMissesSecondQuote` | `Utils.EscapeQuotesAll` |
| src/utils.ts:70-72 | `s.replace("/", "\\/")` with a string pattern escapes only the first slash | a pattern `//` is shown as backslash, slash, slash, leaving the second slash bare | every slash escaped in the regular-expression heading | medium, not executed | `Utils.EscapeSlashesMissesSecondSlash` | `Utils.EscapeSlashesAll` |
