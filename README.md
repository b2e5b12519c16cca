# Mega-menu dropdown search, modelled in Dafny

The `qiskit-mega-menu-dropdown` web component shows a menu of links. The menu is a
tree: blocks hold groups, and groups hold links. A filter box above the menu narrows
it down, and the component highlights the query words inside the labels it shows.
This project models the search core of that component and proves what it promises:

- **Query tokenisation** (`MegaMenuWords`). The query is trimmed, lower-cased and split
  on single spaces. Empty pieces are dropped.
- **Content filtering** (`MegaMenuFilter`). A group whose title contains a query word
  is kept whole. Any other group keeps only the links whose label contains a query
  word. Groups left without links are then dropped, and so are blocks left without
  groups. A blank query leaves the menu as it is.
- **Highlight segmentation** (`MegaMenuHighlight`). Pass one gives each character of a
  label a flag. For every word it scans the lower-cased label from the left for
  non-overlapping matches and flags their characters; this is done in place on an
  array. Pass two merges neighbouring characters of equal flag into runs. Each run
  records the position of its first character.

Two further modules hold the building blocks:

- `JsString` models the JavaScript string built-ins the core calls: `trim`,
  `toLowerCase`, `split`, `indexOf` with its clamped start position, and `includes`.
- `Seqs` models `Array.prototype.filter` and the subsequence order.

The component reads the query from its input element and the menu from its `content`
property. Here both are parameters.

Two behaviours deserve a note, because a reader of the component might expect
something else. In both the model does what the code does:

- One might expect a group whose title matches a word to be shown even when it has
  no links, since the title rule hands it back unchanged. The code then drops it
  (index.ts:210-212), because that step looks only at the number of links.
  `TitleMatchWithoutLinksIsDropped` and `SurvivorsAreNonEmpty` state this.
- One might expect each match of a word to become a highlighted segment of its own.
  The code merges neighbouring characters of equal flag (index.ts:298-312), so
  matches that touch end to start form one run. In "banana" the word "an" is found
  at 1 and at 3 (`BananaScan`), which flags characters 1 to 4
  (`AdjacentMatchesInBanana`). The merge never leaves two neighbouring runs with the
  same flag (`Alternating`), so the result is the runs "b", "anan" and "a", not two
  separate "an" runs.

## Model

| member | source | states |
|---|---|---|
| JsString.TrimStart | components/mega-menu-dropdown/index.ts:145 | the leading part `trim()` cuts is all whitespace, and what is left is a suffix that does not start with whitespace |
| JsString.TrimEnd | components/mega-menu-dropdown/index.ts:145 | the trailing part `trim()` cuts is all whitespace, and what is left is a prefix that does not end with whitespace |
| JsString.TrimmedEnds | components/mega-menu-dropdown/index.ts:145 | whitespace cut off the front and then off the back leaves an infix between whitespace that does not start with whitespace |
| JsString.Trim | components/mega-menu-dropdown/index.ts:145 | `trim()` cuts only whitespace, from both ends, and leaves a text that neither starts nor ends with whitespace |
| JsString.TrimEmptyIff | components/mega-menu-dropdown/index.ts:156-158 | the trimmed query is empty exactly when every character of the input is whitespace |
| JsString.TrimIdempotent | components/mega-menu-dropdown/index.ts:161-162 | trimming the already trimmed query a second time changes nothing |
| JsString.ToLowerCase | components/mega-menu-dropdown/index.ts:163 | lower-casing keeps the length, turns each capital into its small letter, leaves every character that is already lower case as it is, makes every character lower case, and keeps spaces and whitespace where they were |
| JsString.ToLowerCaseConcat | components/mega-menu-dropdown/index.ts:163 | lower-casing works character by character: the lower-cased concatenation is the concatenation of the lower-cased parts |
| JsString.ToLowerCaseIdempotent | components/mega-menu-dropdown/index.ts:163 | lower-casing a lower-cased text changes nothing |
| JsString.Split | components/mega-menu-dropdown/index.ts:164 | `split(' ')` gives at least one piece, and no piece contains the separator |
| JsString.SplitCharsFromSource | components/mega-menu-dropdown/index.ts:164 | every character of a piece comes from the string that was split |
| JsString.JoinSplit | components/mega-menu-dropdown/index.ts:164 | joining the pieces with the separator gives the string back |
| JsString.ConcatSplit | components/mega-menu-dropdown/index.ts:164 | the pieces laid end to end are the string with its separators removed, in order |
| JsString.IndexOf | components/mega-menu-dropdown/index.ts:273 | `indexOf(word, pos)` clamps `pos` to the length, then returns the first occurrence at or after it, or -1 exactly when there is none |
| JsString.Includes | components/mega-menu-dropdown/index.ts:244 | `includes` is true exactly when the word occurs somewhere in the text |
| Seqs.Filter | components/mega-menu-dropdown/index.ts:165 | `filter` keeps exactly the elements the predicate accepts and is never longer than its input |
| Seqs.FilterMultiplicity | components/mega-menu-dropdown/index.ts:233-235 | each accepted element is kept as often as it occurs, and every other element is gone |
| Seqs.FilterIsSubsequence | components/mega-menu-dropdown/index.ts:195-197 | `filter` only deletes elements, so the rest keep their order |
| Seqs.FilterExact | components/mega-menu-dropdown/index.ts:210-212 | `filter` keeps the accepted elements in their order, each as often as it occurs, and no other element |
| Seqs.FilterKeepsAll | components/mega-menu-dropdown/index.ts:210-212 | a filter that accepts every element gives the sequence back |
| Seqs.FilterIdempotent | components/mega-menu-dropdown/index.ts:233-235 | filtering twice with the same predicate is filtering once |
| Seqs.FilterCons | components/mega-menu-dropdown/index.ts:195-197 | the filter of a non-empty sequence is the head's contribution followed by the filter of the rest |
| MegaMenuWords.TextOnTheFilter | components/mega-menu-dropdown/index.ts:144-146 | the query text is the input with whitespace cut off both ends: an infix with only whitespace either side that neither starts nor ends with whitespace. It is empty exactly when the input holds only whitespace |
| MegaMenuWords.IsFilterTextEmpty | components/mega-menu-dropdown/index.ts:156-158 | the query counts as empty exactly when every character of the input is whitespace |
| MegaMenuWords.IsWord | components/mega-menu-dropdown/index.ts:165 | the piece test of the `filter`: a piece is kept when it is not the empty string. `WordsOnTheFilter` states the consequence, that every word is non-empty |
| MegaMenuWords.WordsOnTheFilter | components/mega-menu-dropdown/index.ts:160-166 | every word is non-empty, lower case and has no space, and there are no words exactly when the trimmed query is empty. `WordsArePieces` states exactly which words they are |
| MegaMenuWords.WordsArePieces | components/mega-menu-dropdown/index.ts:160-166 | the words are exactly the non-empty pieces of the lower-cased query text split on single spaces, in the order of the pieces and each as often as it occurs among them |
| MegaMenuWords.SplitIntoWords | components/mega-menu-dropdown/index.ts:164-165 | the non-empty pieces of a lower-cased text are lower case and free of spaces, and a text that starts with something other than a space has at least one |
| MegaMenuWords.ConcatWords | components/mega-menu-dropdown/index.ts:165 | dropping the empty pieces does not change what the pieces spell |
| MegaMenuWords.WordsInOrder | components/mega-menu-dropdown/index.ts:160-166 | the words laid end to end spell the lower-cased trimmed query without its spaces, so they keep their left-to-right order |
| MegaMenuWords.BlankQueryHasNoWords | components/mega-menu-dropdown/index.ts:156-166 | a query of only whitespace counts as empty and has no words |
| MegaMenuFilter.ContainsWordsOnTheFilter | components/mega-menu-dropdown/index.ts:243-245 | true exactly when some word is a substring of the lower-cased label (any word will do) |
| MegaMenuFilter.LinkMatches | components/mega-menu-dropdown/index.ts:233-235 | the link test is true exactly when some word is a substring of the lower-cased link label |
| MegaMenuFilter.FilterMegaDropdownGroup | components/mega-menu-dropdown/index.ts:220-241 | the group keeps its title and never gains links. `GroupRule` states exactly which links it keeps |
| MegaMenuFilter.HasLinks | components/mega-menu-dropdown/index.ts:211 | the group test of the `filter`: a group is kept when it has a link. `FilteredGroupsHaveLinks` and `BlockRule` state the consequences |
| MegaMenuFilter.HasGroups | components/mega-menu-dropdown/index.ts:196 | the block test of the `filter`: a block is kept when it has a group. `FilteredBlocksNonEmpty` and `BlocksRule` state the consequences |
| MegaMenuFilter.FilterMegaDropdownBlock | components/mega-menu-dropdown/index.ts:202-218 | the block keeps its title, never gains groups, and every group left has links. `BlockRule` states exactly which groups are left |
| MegaMenuFilter.FilterContent | components/mega-menu-dropdown/index.ts:184-200 | the menu never gains blocks, and after a non-blank query every block left has groups. `ContentRule`, `BlankQueryIsIdentity` and `FilterContentPrunes` state exactly what is left |
| MegaMenuFilter.FilterEachGroup | components/mega-menu-dropdown/index.ts:206-208 | the `map` over the groups keeps the number of groups and applies the group filter to each, position by position |
| MegaMenuFilter.FilterEachBlock | components/mega-menu-dropdown/index.ts:191-193 | the `map` over the blocks keeps the number of blocks and applies the block filter to each, position by position |
| MegaMenuFilter.GroupRule | components/mega-menu-dropdown/index.ts:220-245 | a group whose title matches comes back unchanged. Any other group keeps its title, and its links become exactly the matching ones, each as often as before and in order |
| MegaMenuFilter.GroupPruned | components/mega-menu-dropdown/index.ts:220-241 | a filtered group has the same title and a subsequence of the links |
| MegaMenuFilter.GroupsPrunedByFilter | components/mega-menu-dropdown/index.ts:206-212 | the groups a block keeps are some of its groups, each pruned, in their order |
| MegaMenuFilter.BlockPruned | components/mega-menu-dropdown/index.ts:202-218 | a filtered block has the same title and its groups pruned in order |
| MegaMenuFilter.BlockRule | components/mega-menu-dropdown/index.ts:202-218 | the block title carries over. The groups left are exactly the filtered groups that have links, each as often as among the filtered groups, in order. Changing the block title changes nothing about which groups are left |
| MegaMenuFilter.GroupsKept | components/mega-menu-dropdown/index.ts:206-212 | a group is left in a block exactly when it has links and is the filtered form of one of the block's groups |
| MegaMenuFilter.BlocksRule | components/mega-menu-dropdown/index.ts:191-197 | the blocks left are exactly the filtered blocks that have groups, each as often as among the filtered blocks, in order |
| MegaMenuFilter.BlocksKept | components/mega-menu-dropdown/index.ts:191-197 | a block is left exactly when it has groups and is the filtered form of one of the blocks |
| MegaMenuFilter.ContentRule | components/mega-menu-dropdown/index.ts:184-200 | after a non-blank query the menu is exactly the filtered blocks that have groups, each as often as among the filtered blocks, in order |
| MegaMenuFilter.BlocksPrunedByFilter | components/mega-menu-dropdown/index.ts:191-197 | the blocks kept are some of the blocks, each pruned, in their order |
| MegaMenuFilter.FilterContentPrunes | components/mega-menu-dropdown/index.ts:184-200 | filtering preserves order at every level: blocks, groups and links are only deleted, and titles carry over |
| MegaMenuFilter.BlankQueryIsIdentity | components/mega-menu-dropdown/index.ts:184-187 | a query of only whitespace returns the content unchanged |
| MegaMenuFilter.FilteredGroupsHaveLinks | components/mega-menu-dropdown/index.ts:210-212 | every group a filtered block keeps has at least one link |
| MegaMenuFilter.FilteredBlocksNonEmpty | components/mega-menu-dropdown/index.ts:195-197 | every block kept has groups, and each of those groups has links |
| MegaMenuFilter.SurvivorsAreNonEmpty | components/mega-menu-dropdown/index.ts:184-212 | after a non-blank query every block left has groups and every group left has links |
| MegaMenuFilter.TitleMatchWithoutLinksIsDropped | components/mega-menu-dropdown/index.ts:210-231 | a group with a matching title and no links is handed back unchanged by the title rule, but it is not among the block's groups after filtering |
| MegaMenuFilter.GroupFilterIdempotent | components/mega-menu-dropdown/index.ts:220-241 | filtering a filtered group again with the same words changes nothing |
| MegaMenuFilter.BlockFilterIdempotent | components/mega-menu-dropdown/index.ts:202-218 | filtering a filtered block again with the same words changes nothing |
| MegaMenuFilter.BlocksFilterIdempotent | components/mega-menu-dropdown/index.ts:191-199 | a second filter pass over the blocks the first one kept changes nothing |
| MegaMenuFilter.FilterContentIdempotent | components/mega-menu-dropdown/index.ts:184-200 | filtering twice with the same query gives what filtering once gives |
| MegaMenuHighlight.ResumeFrom | components/mega-menu-dropdown/index.ts:281 | the search resumes at the end of the match, and at position 1 when the match ends at 0 |
| MegaMenuHighlight.Scan | components/mega-menu-dropdown/index.ts:273-281 | the matches the loop for one word visits from the start of the label are occurrences of the word, in increasing order, and never overlap. `ScanFromIsGreedy` states which occurrences they are |
| MegaMenuHighlight.ScanFrom | components/mega-menu-dropdown/index.ts:273-281 | the matches the loop for one word visits are occurrences of the word, in increasing order, and never overlap |
| MegaMenuHighlight.ScanFromIsGreedy | components/mega-menu-dropdown/index.ts:273-281 | every occurrence at or after the start lies inside a visited match, so the only occurrences skipped are ones that overlap an earlier match |
| MegaMenuHighlight.HighlightedMeansInOccurrence | components/mega-menu-dropdown/index.ts:271-283 | the first character of every occurrence of a word is flagged, and a flagged character lies inside some occurrence of some word |
| MegaMenuHighlight.NoOccurrenceNoHighlight | components/mega-menu-dropdown/index.ts:271-283 | when no word occurs in the label, no character is flagged |
| MegaMenuHighlight.OverlappingOccurrenceIsSkipped | components/mega-menu-dropdown/index.ts:276-281 | in "aaa" the word "aa" is found at 0 only, so the last character stays plain although the occurrence at 1 covers it |
| MegaMenuHighlight.BananaScan | components/mega-menu-dropdown/index.ts:273-281 | in "banana" the scan for "an" visits 1 and then 3 |
| MegaMenuHighlight.AdjacentMatchesInBanana | components/mega-menu-dropdown/index.ts:271-283 | in "banana" with the word "an", exactly the characters 1 to 4 are flagged |
| MegaMenuHighlight.EmptyWordScanIsStuck | components/mega-menu-dropdown/index.ts:281 | an empty word would be found again where the search resumes, so the resume rule alone does not end the loop. The words are never empty (`WordsOnTheFilter`) |
| MegaMenuHighlight.CharsSpellLabel | components/mega-menu-dropdown/index.ts:265-269 | one entry per character spells the label, and the entries' flags are the characters' flags |
| MegaMenuHighlight.HighlightedExtend | components/mega-menu-dropdown/index.ts:271 | taking one more word in the `forEach` adds exactly that word's matches to the flagged characters |
| MegaMenuHighlight.MarkSpan | components/mega-menu-dropdown/index.ts:277-279 | the inner loop sets the flag of the characters from `from` up to `stop` (the source's `to`) and changes nothing else |
| MegaMenuHighlight.ScanAdvance | components/mega-menu-dropdown/index.ts:276-281 | after a match, the search resumes further on but still inside the label, and the match joins the visited ones |
| MegaMenuHighlight.ScanDone | components/mega-menu-dropdown/index.ts:274 | once the search finds nothing, the matches visited are the whole scan |
| MegaMenuHighlight.HighlightWord | components/mega-menu-dropdown/index.ts:272-282 | the callback for one word flags exactly the characters inside that word's matches, on top of the flags already set. It never clears a flag |
| MegaMenuHighlight.SplitTextInHighlightedChars | components/mega-menu-dropdown/index.ts:261-285 | there is one entry per character of the label, holding that character. An entry is flagged exactly when its character lies inside a match that the scan of some word finds in the lower-cased label |
| MegaMenuHighlight.UniformFlagsOneRun | components/mega-menu-dropdown/index.ts:298-312 | non-empty runs that alternate in flag, over a text of one flag only, are at most one run |
| MegaMenuHighlight.MergeStart | components/mega-menu-dropdown/index.ts:290-296 | the first entry, with index 0, is the merge of the first entry |
| MegaMenuHighlight.ExtendLastSpells | components/mega-menu-dropdown/index.ts:304 | appending an entry of the same flag to the last run's text extends what the runs spell, and their flags, by that entry |
| MegaMenuHighlight.ExtendLastShape | components/mega-menu-dropdown/index.ts:304 | appending to the last run keeps the alternation of flags and the non-empty texts |
| MegaMenuHighlight.ExtendLastIndexed | components/mega-menu-dropdown/index.ts:304 | appending to the last run keeps every run's index |
| MegaMenuHighlight.MergeContinue | components/mega-menu-dropdown/index.ts:299-304 | an entry whose flag continues the last run keeps the merge invariant one entry further |
| MegaMenuHighlight.AppendIndexed | components/mega-menu-dropdown/index.ts:306-310 | a pushed run with index `i`, where the entries before `i` spell the runs so far, keeps every run indexed |
| MegaMenuHighlight.MergeNewRun | components/mega-menu-dropdown/index.ts:305-310 | an entry whose flag differs starts a new run with index `i` and keeps the merge invariant one entry further |
| MegaMenuHighlight.JoinCharsByHighlightedState | components/mega-menu-dropdown/index.ts:287-315 | the runs spell the same text with the same flag on every character. Neighbouring runs differ in flag, so runs are maximal. No run is empty when no entry is. Each run's index is the position of its first entry |
| MegaMenuHighlight.RunsOfLabel | components/mega-menu-dropdown/index.ts:287-315 | for one entry per character, the runs spell the label, no run is empty, and each run's index is the position in the label of its first character |
| MegaMenuHighlight.PlainLabelOneRun | components/mega-menu-dropdown/index.ts:298-312 | alternating non-empty runs over a label with no flagged character are the whole label as one plain run with index 0 |
| MegaMenuHighlight.HighlightedRuns | components/mega-menu-dropdown/index.ts:253-258 | the runs made from a non-blank label spell it. A character is highlighted exactly when it lies inside a match of some word. With no word occurring, they are one plain run |
| MegaMenuHighlight.SplitTextInHighlightParts | components/mega-menu-dropdown/index.ts:247-259 | the segments always spell the label. A blank query or a blank label gives one plain segment without index. Otherwise the segments are non-empty and alternate in flag, each index is the position of the segment's first character, and a character is highlighted exactly when it lies in a match of some query word. A label in which no word occurs is one plain segment with index 0 |

## Left out

- Rendering and the DOM are not modelled: `render`, `highlightedText`, `emptyContentView`, the `@query` fields and the `_textOnTheFilter` setter. The query text and the menu content are parameters.
- `_textOnTheFilter` and `_isFilterTextEmpty` read the input element. Here they are `TextOnTheFilter` and `IsFilterTextEmpty`, functions of the query text.
- Widget state and event wiring are not modelled: `_showContent`, `_filteredContent`, `_isFilteredContentEmpty`, `_onShowContent`, `_onSwitchShowContent`, `_onTextOnTheFilterChanged`, `connectedCallback`, `disconnectedCallback` and `_handleClick`. They hold no search logic.
- The debounced `performedSearch` notification is not modelled: `_performedSearch`, `_removePerformedSearchEventTimeout` and `_dispatchPerformedSearchEvent`. It is timers and event dispatch.
- The `column-list` component and the icon modules are not part of this model.
- JsString.ToLowerCase: maps the ASCII capitals only. JavaScript's `toLowerCase` follows Unicode case mapping. Length-preserving mappings outside ASCII, such as 'É' to 'é', are not modelled, so a label "École" matches the query "éc" in the component but not in the model. Mappings that lengthen a string are not modelled either.
- JsString.IsWhitespace: the model has no Unicode database. It lists the ECMAScript WhiteSpace and LineTerminator code points by hand.
- A JavaScript string is modelled as one sequence of characters. `Array.from` splits a label into code points, while `indexOf` counts UTF-16 units, so the two disagree after a character outside the Basic Multilingual Plane. There the component flags characters shifted to the right of the match. Once a shifted index passes the end of the array, `highlightStates[i]` is undefined (index.ts:278) and setting its flag throws a TypeError. The model uses one position per character for both, so it flags the matched characters and never fails.
- MegaMenuHighlight.JoinCharsByHighlightedState: requires at least one entry. The source reads entry 0 unguarded and would throw on an empty array. Its only caller passes a label that is not blank.
- MegaMenuHighlight.ScanFrom: requires a non-empty word. With an empty word the source loop never ends (`EmptyWordScanIsStuck`), and the tokeniser never produces one.
- `HighlightTextState.index` is an `Option`. The entries made per character and the single plain segment have no index in the source, so they carry `None`.
- The `label` field of a link is called `labelText`, because `label` is a Dafny keyword.
- The in-place text update of the last run uses JavaScript object aliasing. It is modelled as replacing the last element of the `output` sequence.
