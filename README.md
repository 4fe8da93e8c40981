# pokerust-tui display core, modelled in Dafny

pokerust-tui is a terminal Pokédex. It fetches Pokémon records from a remote
API and shows them as lists and tables. This project models the part of it
that decides what is shown. That part has two halves:

- **Cursors.** `StatefulList` is the Pokémon list with its wrap-around
  selection. `SwitchableTableState` is a table cursor whose item count is
  only given at each call. Both are classes whose methods update the
  selection in place.
- **Display projections.** These turn the API's `Option`-laden records into
  cell strings and rows:
  - name formatting (`split_capitalize`, `uppercase_first_letter`);
  - the scalar fields of a Pokémon, its types, stats and held items;
  - abilities and their first English effect;
  - encounter tables, with de-duplicated methods, level ranges and the
    version-group filter;
  - the joined and sorted tables of an extended Pokémon record.

A `Span` is modelled as a `string` and a `Row` as a `seq<string>`. Styling
is dropped. `i32` is a newtype, and `to_string` is a decimal renderer
(`Numbers.IntToString`) proved to round-trip through a parser.

`sort_by` is modelled as a stable insertion sort over an array, generic in
its comparator (module `Sorting`). It is proved equal to a functional
specification, `StableSort`. Three properties are proved about that
specification:

- it is a permutation of its input;
- it is sorted whenever the comparator is a total preorder on the input;
- ties keep their input order.

The move comparator is a total preorder on the moves whose first details
carry both a level and a learn method. That condition is sufficient, not
necessary. Without it the comparator can fail to be transitive: take a move
`a` at level 2 learned by "a", a move `b` with no level learned by "b", and a
move `c` at level 1 learned by "c". Then `a` is not above `b` (method "a" <
"b"), `b` is not above `c` ("b" < "c"), yet `a` is above `c` (level 2 > 1).
The sortedness and stability results for moves are therefore stated for
complete moves.

The source and its own tests disagree in one place. The test at
src/models/verbose_effect.rs:46-52 expects `get_effect` to return the
`effect` text. The code returns `short_effect`, and the ability test at
src/models/pokemon_ability.rs:149-155 agrees with the code. The model
follows the code.

## Model

| member | source | states |
|---|---|---|
| Numbers.IntRoundTrip | src/models/pokemon.rs:34-39 | the decimal text of any integer parses back to that integer |
| Numbers.NatToString | src/models/pokemon.rs:34-39 | the decimal digits of a natural number: non-empty, all digits, and a leading `0` only for 0 itself |
| Numbers.IntToString | src/models/pokemon.rs:34-39 | `to_string` on an integer: never empty; it starts with `-` exactly for negative values, followed by the digits of the absolute value |
| Numbers.CanonicalDigitsUnique | src/models/pokemon.rs:34-39 | a digit run without a leading zero is the rendering of the number it reads as |
| Numbers.IntToStringUnique | src/models/pokemon.rs:34-39 | the rendering of `n` is the only text without leading zeros or `-0` that reads back as `n` |
| Numbers.IntToStringCanonical | src/models/pokemon.rs:34-39 | the rendering never has a leading zero or a `-0` |
| Numbers.IntToStringInjective | src/models/pokemon.rs:34-39 | different integers never render alike |
| Utils.UppercaseFirstLetter | src/utils.rs:1-7 | same length; the first character upper-cased, the rest unchanged; `""` stays `""` |
| Utils.UppercaseFirstLetterIdempotent | src/utils.rs:1-7 | applying it twice is applying it once |
| Utils.Split | src/utils.rs:15 | `n` separators give `n + 1` pieces, empty pieces included, none containing the separator |
| Utils.JoinSplit | src/utils.rs:15-20 | joining the pieces of a split with the separator gives back the input |
| Utils.AppendPadding | src/models/pokemon_ability.rs:141-147 | one no-break space in front of the unchanged text |
| Utils.CapitalizeEach | src/utils.rs:18-19 | one upper-cased piece per piece, in order |
| Utils.SplitCapitalize | src/utils.rs:14-21 | `split_capitalize` itself: no contract of its own; specified by `Utils.SplitCapitalizeIsCapitalizeWords` and `Utils.SplitCapitalizeShape` |
| Utils.SplitCapitalizeIsCapitalizeWords | src/utils.rs:14-21 | split, capitalize and join equals the character-by-character rule: each `-` becomes a space and each word start is upper-cased |
| Utils.SplitCapitalizeShape | src/utils.rs:14-21 | output as long as the input, with no `-`, and one more space per `-` removed |
| Utils.SplitCapitalizeWithoutDash | src/utils.rs:14-21 | without `-` the result is `uppercase_first_letter` of the input |
| Utils.SplitCapitalizeIdempotent | src/utils.rs:14-21 | formatting a formatted name changes nothing |
| Utils.SplitCapitalizeRaichu | src/models/pokemon.rs:193-197 | "raichu" becomes "Raichu" |
| Utils.SplitCapitalizeSharpFang | src/models/pokemon.rs:241-252 | "sharp fang" becomes "Sharp fang" |
| Utils.SplitCapitalizeEmptyPieces | src/utils.rs:15-20 | empty pieces survive: "a--b" becomes "A  B" |
| StatefulLists.NextIndex | src/stateful_list.rs:22-34 | `None` goes to 0 on any list; on a non-empty list a cursor below the last index goes to `i + 1`, one at the last index or beyond to 0; in range whenever the list is non-empty |
| StatefulLists.PreviousIndex | src/stateful_list.rs:36-48 | `None` goes to 0 and `i > 0` to `i - 1` on any list; 0 goes to the last index of a non-empty list; in range from in range |
| StatefulLists.PreviousAfterNext | src/stateful_list.rs:22-48 | from an in-range cursor, `previous` undoes `next` |
| StatefulLists.NextAfterPrevious | src/stateful_list.rs:22-48 | from an in-range cursor, `next` undoes `previous` |
| StatefulLists.NextIterateAdvances | src/stateful_list.rs:22-34 | `k` steps before the end advance the cursor by `k` |
| StatefulLists.NextCycle | src/stateful_list.rs:22-34 | `len` calls of `next` bring an in-range cursor back |
| StatefulLists.StatefulList.WithItems | src/stateful_list.rs:10-20 | both vectors hold the items and index 0 is selected, even for an empty list |
| StatefulLists.StatefulList.Next | src/stateful_list.rs:22-34 | the selection becomes `NextIndex` of the old one, in range when the list is non-empty; the vectors are unchanged |
| StatefulLists.StatefulList.Previous | src/stateful_list.rs:36-48 | the selection becomes `PreviousIndex` of the old one, in range from in range, or from none on a non-empty list; the vectors are unchanged |
| StatefulLists.StatefulList.GetSelected | src/stateful_list.rs:54-62 | the shown item under the cursor exactly when a cursor is set and in range, otherwise `None` |
| StatefulLists.NextThenPrevious | src/stateful_list.rs:22-48 | calling `next` then `previous` on a non-empty list leaves an in-range cursor where it was |
| TableStates.TableNext | src/switchable_table_state.rs:10-23 | no change with no count or count 0; otherwise a selection in range, even from an out-of-range start |
| TableStates.TablePrevious | src/switchable_table_state.rs:25-38 | no change with no count or count 0; otherwise in range from in range or none |
| TableStates.TableMovesLikeList | src/switchable_table_state.rs:10-38 | with a positive count both moves are exactly the list cursor's moves |
| TableStates.TablePreviousAfterNext | src/switchable_table_state.rs:10-38 | from an in-range cursor, `previous` undoes `next` |
| TableStates.TableIterateLikeList | src/switchable_table_state.rs:10-23 | repeated `next` with a fixed positive count follows the list cursor |
| TableStates.TableNextCycle | src/switchable_table_state.rs:10-23 | `n` calls with count `n` bring an in-range cursor back |
| TableStates.SwitchableTableState.New | src/switchable_table_state.rs:6-8 | nothing selected |
| TableStates.SwitchableTableState.Next | src/switchable_table_state.rs:10-23 | the selection becomes `TableNext` of the old one |
| TableStates.SwitchableTableState.Previous | src/switchable_table_state.rs:25-38 | the selection becomes `TablePrevious` of the old one |
| Effects.GetLanguage | src/models/verbose_effect.rs:13-19 | the language's name when both are present, otherwise `""` |
| Effects.GetEffect | src/models/verbose_effect.rs:21-26 | the short effect text, otherwise `""` |
| Effects.GetEffectIgnoresEffect | src/models/verbose_effect.rs:21-26 | the long `effect` text never affects the result |
| Effects.GetEffectOfStub | src/models/pokemon_ability.rs:149-155 | with both texts present, the short one is shown, and the language is "en" |
| Abilities.RenderableIsHidden | src/models/pokemon_ability.rs:17-23 | "Yes" exactly when `is_hidden` is `Some(true)`, otherwise "No" |
| Abilities.RenderableName | src/models/pokemon_ability.rs:50-55 | `""` without a name; otherwise the padding followed by the formatted name, one character longer than the name |
| Abilities.RenderableEffectEntry | src/models/pokemon_ability.rs:57-74 | the short effect of the first English entry; `""` without entries or without an English one |
| Abilities.EffectEntryNeverForeign | src/models/pokemon_ability.rs:64 | a non-empty effect always comes from an English entry |
| Abilities.RenderableAsRow | src/models/pokemon_ability.rs:25-38 | `None` exactly without a fetched ability; otherwise the three cells name, effect, hidden flag |
| Abilities.RenderableAsRowOfStub | src/models/pokemon_ability.rs:128-139 | the tests' ability gives the row "\u{A0}Test", "short effect", "No" |
| Abilities.RenderableNameOfStub | src/models/pokemon_ability.rs:141-147 | "test" renders as "\u{A0}Test" |
| Seqs.DedupSpec | src/models/pokemon_encounter.rs:42-50 | push-unless-present keeps exactly the input's elements, each once, in order of first occurrence |
| Encounters.RenderableVersion | src/models/pokemon_encounter.rs:25-30 | `""` without a version; otherwise the version name with each `-` a space and each word capitalized, as long as the name |
| Encounters.RenderableMaxChance | src/models/pokemon_encounter.rs:32-36 | `""` exactly without a chance; otherwise decimal text that parses back to it |
| Encounters.MethodsText | src/models/pokemon_encounter.rs:38-55 | the methods cell: no contract of its own; specified by `Encounters.MethodsListed`, and the loop by `Encounters.RenderableMethods` |
| Encounters.MethodNamesContents | src/models/pokemon_encounter.rs:43-50 | a name is collected exactly when some detail has that formatted method; details without one are skipped |
| Encounters.MethodsListed | src/models/pokemon_encounter.rs:38-55 | the listed methods are exactly the details' methods, each once, in order of first occurrence |
| Encounters.RenderableMethods | src/models/pokemon_encounter.rs:38-55 | the loop's result is the de-duplicated method names joined by ", ", and `""` without details |
| Encounters.MaxByMaxLevel | src/models/pokemon_encounter.rs:62-65 | `None` exactly for no details; otherwise a detail whose `max_level` no other exceeds, with `None` below every level |
| Encounters.MinByMinLevel | src/models/pokemon_encounter.rs:73-76 | `None` exactly for no details; otherwise a detail whose `min_level` no other is below |
| Encounters.MaxLevel | src/models/pokemon_encounter.rs:58-67 | the upper end of the range: no contract of its own; specified by `Encounters.MaxLevelSpec` |
| Encounters.MinLevel | src/models/pokemon_encounter.rs:69-78 | the lower end of the range: no contract of its own; specified by `Encounters.MinLevelSpec` |
| Encounters.MaxLevelSpec | src/models/pokemon_encounter.rs:58-67 | the upper end is the largest present `max_level`, and 0 when none is present |
| Encounters.MinLevelSpec | src/models/pokemon_encounter.rs:69-78 | the lower end is the smallest `min_level` when all are present, and 0 with no details or when any is missing |
| Encounters.RenderableLevels | src/models/pokemon_encounter.rs:57-81 | "min - max", each side parsing back to its level |
| Encounters.RenderableLocationArea | src/models/pokemon_encounter.rs:91-104 | `""` without an area; otherwise one character longer than the area name: a no-break space, then the name with each `-` a space and each word capitalized |
| Encounters.VersionMatches | src/models/pokemon_encounter.rs:112-124 | the filter's test: no contract of its own; `Encounters.HyphenatedVersionNeverMatches` and `Encounters.StubMatchesGroup` are about it |
| Encounters.SelectedVersionDetails | src/models/pokemon_encounter.rs:107-127 | the filtered version details: no contract of its own; `Encounters.RenderableAsRows` and `Encounters.RowsKeepSourceOrder` state what it keeps |
| Encounters.HyphenatedVersionNeverMatches | src/models/pokemon_encounter.rs:113-118 | a version name containing `-` never matches the group |
| Encounters.VersionDetailRow | src/models/pokemon_encounter.rs:132-139 | five cells: the location; the methods text; `""` without a version, else the capitalized version name; `""` exactly without a chance, else text that parses back to it; "min - max" with each side parsing back to its level |
| Encounters.RenderableAsRows | src/models/pokemon_encounter.rs:106-145 | no rows without version details; one five-cell row per detail of the selected group, in source order |
| Encounters.RowsKeepSourceOrder | src/models/pokemon_encounter.rs:106-145 | the rows of two runs of details are the first run's rows followed by the second's |
| Encounters.SingleDetailRows | src/models/pokemon_encounter.rs:112-124 | one detail gives its row exactly when its version is in the group |
| Encounters.MethodsOfStub | src/models/pokemon_encounter.rs:236-243 | walk, headbutt, walk is shown as "Walk, Headbutt" |
| Encounters.LevelsOfStub | src/models/pokemon_encounter.rs:254-261 | the tests' details give "1 - 40" |
| Encounters.StubMatchesGroup | src/models/pokemon_encounter.rs:263-285 | version "y" belongs to group "x-y" |
| Encounters.VersionAndChanceOfStub | src/models/pokemon_encounter.rs:227-252 | the tests' version and chance cells are "Y" and "10" |
| Pokemons.RenderableNumber | src/models/pokemon.rs:34-74 | the shared scalar renderer: `""` exactly for `None`, otherwise text that parses back to the number |
| Pokemons.RenderableId | src/models/pokemon.rs:34-39 | `""` exactly without an id; otherwise decimal text that parses back to it |
| Pokemons.RenderableOrder | src/models/pokemon.rs:41-46 | `""` exactly without an order; otherwise its decimal text |
| Pokemons.RenderableHeight | src/models/pokemon.rs:55-60 | `""` exactly without a height; otherwise its decimal text |
| Pokemons.RenderableWeight | src/models/pokemon.rs:62-67 | `""` exactly without a weight; otherwise its decimal text |
| Pokemons.RenderableBaseExperience | src/models/pokemon.rs:69-74 | `""` exactly without base experience; otherwise its decimal text |
| Pokemons.RenderableNumberInjective | src/models/pokemon.rs:34-74 | two scalar cells are equal only for equal fields |
| Pokemons.RenderableName | src/models/pokemon.rs:48-53 | `""` without a name; otherwise the formatted name, as long as the name |
| Pokemons.TypeSpan | src/models/pokemon.rs:83 | the styled type name, or `""` without a type name |
| Pokemons.RenderableTypes | src/models/pokemon.rs:76-88 | one span per type, in order; none without types |
| Pokemons.RenderableStats | src/models/pokemon.rs:90-102 | one row per stat, in order; none without stats |
| Pokemons.RenderableStatsAppend | src/models/pokemon.rs:90-102 | more stats append their rows after the others |
| Pokemons.HeldItemRows | src/models/pokemon.rs:104-117 | the held items' rows: no contract of its own; specified by `Pokemons.HeldItemRowsLength` and `Pokemons.HeldItemRowsOfItem` |
| Pokemons.RenderableHeldItems | src/models/pokemon.rs:104-117 | the loop's rows are the concatenation of every held item's rows, in order |
| Pokemons.HeldItemRowsLength | src/models/pokemon.rs:104-117 | no rows without held items; otherwise as many rows as all items give together |
| Pokemons.HeldItemRowsOfItem | src/models/pokemon.rs:104-117 | item `k`'s rows sit unchanged right after the rows of the items before it |
| Pokemons.ScalarsOfStub | src/models/pokemon.rs:181-215 | the tests' Pokémon renders id "1", order "1", height "10", weight "100", base experience "200" |
| Pokemons.NameOfStub | src/models/pokemon.rs:193-197 | "raichu" renders as "Raichu" |
| ExtendedInfo.FetchedAbility | src/models/extended_pokemon_info.rs:33-43 | the first fetched ability with an equal name, missing names counting as `""`; `None` exactly when none matches |
| ExtendedInfo.RenderableAbilities | src/models/extended_pokemon_info.rs:24-51 | no rows without a list; at most one row per reference |
| ExtendedInfo.AbilityRowsOfMatches | src/models/extended_pokemon_info.rs:24-51 | the rows are exactly those of the references that match a fetched ability, in order, each a three-cell row joined with its first match |
| ExtendedInfo.UnnamedReferenceDropped | src/models/extended_pokemon_info.rs:34-42 | a reference without its resource never matches and gives no row |
| ExtendedInfo.BasicInfoItems | src/models/extended_pokemon_info.rs:53-102 | exactly eleven two-cell rows, each a padded label in the fixed order followed by its value |
| ExtendedInfo.BasicInfoValues | src/models/extended_pokemon_info.rs:56-101 | one value per label |
| ExtendedInfo.BasicInfoPokemonCells | src/models/extended_pokemon_info.rs:57-84 | ID, Order, Name, Types, Height, Weight and Base Experience hold the Pokémon's id, order, name, joined type spans, height, weight and base experience cells |
| ExtendedInfo.BasicInfoSpeciesCells | src/models/extended_pokemon_info.rs:85-100 | Base Happiness, Capture Rate, Color and Is Legendary hold the species cell of that same field |
| ExtendedInfo.PreparedMoves | src/models/extended_pokemon_info.rs:104-130 | none without a moves list |
| ExtendedInfo.PreparedMovesSpec | src/models/extended_pokemon_info.rs:104-130 | exactly the moves with non-empty details for the version, in order, each paired with those details |
| ExtendedInfo.PreparedMovesHaveDetails | src/models/extended_pokemon_info.rs:115-124 | every prepared move has details, so the first is there to sort and show by |
| ExtendedInfo.IntCmp | src/models/extended_pokemon_info.rs:144 | `Equal` exactly for equal levels, `Less` exactly for a smaller one |
| ExtendedInfo.StrCmp | src/models/extended_pokemon_info.rs:157-159 | `Ord::cmp` on strings: no contract of its own; specified by `ExtendedInfo.StrCmpEqual`, `ExtendedInfo.StrCmpReverse` and `ExtendedInfo.StrCmpTransitive` |
| ExtendedInfo.StrCmpEqual | src/models/extended_pokemon_info.rs:157-159 | names compare `Equal` exactly when they are equal |
| ExtendedInfo.StrCmpReverse | src/models/extended_pokemon_info.rs:157-159 | swapping the names reverses the comparison |
| ExtendedInfo.StrCmpTransitive | src/models/extended_pokemon_info.rs:157-159 | "not greater" between names is transitive |
| ExtendedInfo.CompareMoves | src/models/extended_pokemon_info.rs:134-170 | the `sort_by` closure: no contract of its own; specified by `ExtendedInfo.CompareMovesReverse`, `ExtendedInfo.CompareComplete` and `ExtendedInfo.CompareTransitive` |
| ExtendedInfo.CompareMovesReverse | src/models/extended_pokemon_info.rs:134-170 | swapping two moves reverses the comparison, complete or not |
| ExtendedInfo.CompareComplete | src/models/extended_pokemon_info.rs:134-170 | on complete moves the comparison is by level, then by learn-method name, and `Equal` exactly when both agree |
| ExtendedInfo.CompareTransitive | src/models/extended_pokemon_info.rs:134-170 | on complete moves "not greater" is transitive |
| ExtendedInfo.CompleteMovesTotalPreorder | src/models/extended_pokemon_info.rs:134-170 | on complete moves the comparator is a total preorder |
| ExtendedInfo.MovesSortSorted | src/models/extended_pokemon_info.rs:133-170 | sorted complete moves are ordered by level, and by learn-method name within a level |
| ExtendedInfo.MovesSortKeepsTies | src/models/extended_pokemon_info.rs:133-170 | moves with the same level and learn method keep their input order |
| ExtendedInfo.FetchedMove | src/models/extended_pokemon_info.rs:175-182 | the first fetched move with an equal name; `None` exactly when none matches |
| ExtendedInfo.MoveRow | src/models/extended_pokemon_info.rs:174-186 | the `filter_map` closure: no contract of its own; `ExtendedInfo.MoveRowsSpec` states what it gives |
| ExtendedInfo.MoveRows | src/models/extended_pokemon_info.rs:172-187 | no more rows than moves |
| ExtendedInfo.MoveRowsSpec | src/models/extended_pokemon_info.rs:172-187 | the rows are exactly those of the sorted moves that give one, in sorted order, each the row of its move joined with the first fetched move of that name, for its first details |
| ExtendedInfo.RenderableMoves | src/models/extended_pokemon_info.rs:132-188 | the rows of the prepared moves after the in-place stable sort, at most one per prepared move |
| ExtendedInfo.UnmatchedMovesDropped | src/models/extended_pokemon_info.rs:172-187 | provided `moveRow` gives no row without a fetched move: the rows are exactly the rows of the moves that name a fetched move, so moves naming none are dropped |
| Sorting.StableSort | src/models/extended_pokemon_info.rs:133-134 | the sorted sequence, as long as the input; specified by `Sorting.StableSortPermutes`, `Sorting.StableSortSorted` and `Sorting.StableSortKeepsTies` |
| Sorting.InsertLast | src/models/extended_pokemon_info.rs:133-134 | adjacent swaps move the last element left past those greater than it; the rest of the array is unchanged |
| Sorting.SortBy | src/models/extended_pokemon_info.rs:133-134 | the array ends up as the stable sort of its old contents |
| Sorting.StableSortPermutes | src/models/extended_pokemon_info.rs:133-134 | sorting loses, duplicates and adds nothing |
| Sorting.StableSortElements | src/models/extended_pokemon_info.rs:133-134 | every sorted element is an input element |
| Sorting.StableSortSorted | src/models/extended_pokemon_info.rs:133-134 | with a total preorder, no element is followed by one it compares greater than |
| Sorting.StableSortKeepsTies | src/models/extended_pokemon_info.rs:133-134 | when the ties of `y` tie among themselves, they keep their input order |

## Left out

- src/http.rs, src/main.rs, src/ui.rs and src/app.rs are not part of this model. They cover network fetching, the terminal event loop, layout and a fixture list.
- `get_styled_pokemon_type`'s colour palette in src/models/pokemon_type.rs is left out. The styled type span is the parameter `styledType`.
- pokemon_sprites.rs is not part of this model. The `sprites` field of the Pokémon record is dropped.
- Colours, styles and the `Spans` grouping of cells are dropped. A span is its text.
- `get_name_or_stub`, `append_padding`, `get_renderable_version_group_details`, `PokemonMove::get_renderable_as_row`, `PokemonStat::get_renderable_as_row`, `PokemonHeldItem::get_renderable_as_rows` and the species renderers are defined outside the modules modelled here.
  - `get_name_or_stub` is modelled as the name, or `""` without one.
  - `append_padding` is modelled by its tests: one no-break space in front.
  - The others are function parameters: `detailsFor`, `moveRow`, `statRow`, `itemRows` and `speciesCell`.
- Utils.ToUpper: only ASCII letters are upper-cased. Rust's Unicode `to_uppercase` can turn one character into several, so the length results hold for this model only.
- The parallel iterators (rayon) are treated as sequential. The filters, maps and collects used keep order.
- The choices of `max_by` and `min_by` among equal levels are not modelled. Only the level reaches the display, and it is the same for every choice.
- Sorting.SortBy: models `sort_by` as an insertion sort. Rust's merge sort gives the same result whenever the comparator is a total preorder. With incomplete moves it may not be one. The order Rust's algorithm then produces is not modelled. Nor is the panic that `sort_by` may raise from Rust 1.81 on when it detects a comparator that is not a total order.
- ExtendedInfo.MovesSortSorted and ExtendedInfo.MovesSortKeepsTies: stated only for moves whose first details have both a level and a learn method. On other moves the comparator is not transitive.
- StatefulLists.StatefulList.Next and StatefulLists.StatefulList.Previous: two inputs are excluded, both on an empty list to show. One is `next` with a cursor set; the other is `previous` with the cursor at 0. Only these compute `len() - 1` on an empty list, which underflows in `usize`. A debug build panics there and a release build wraps around: `next` then selects `i + 1`, and `previous` selects `usize::MAX`. Neither outcome is modelled. With no cursor, both select 0 on any list. `previous` from a cursor above 0 steps back on any list. Both cases are modelled.
- Encounters.RenderableAsRows: requires every version detail to name its version. The source unwraps the version and panics otherwise.
- ExtendedInfo.UnmatchedMovesDropped: assumes `moveRow` gives no row for a move without a fetched record. `moveRow` stands for `PokemonMove::get_renderable_as_row`. That function is not modelled, so this behaviour is an assumption, not something proved.
- ExtendedInfo.MoveRow: gives no row for a prepared move without details. The source unwraps the first details there, but prepared moves always have some (ExtendedInfo.PreparedMovesHaveDetails).
- The Rust test at src/models/verbose_effect.rs:46-52 contradicts the code it tests. The model follows the code.
- The list filtering and the fetch orchestration in src/main.rs are not modelled.
