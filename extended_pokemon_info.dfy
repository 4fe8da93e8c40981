/**
 * A Pokémon together with the abilities, moves and species fetched for it
 * (src/models/extended_pokemon_info.rs): the joins of references to fetched
 * records by name, the fixed table of basic facts, and the moves of one
 * version, sorted by level and learn method.
 */
module ExtendedInfo {
  import opened Wrappers
  import opened Seqs
  import opened Utils
  import opened ApiModels
  import opened Abilities
  import opened Pokemons
  import opened Sorting

  datatype ExtendedPokemonInfo = ExtendedPokemonInfo(
    pokemon: Pokemon,
    abilities: seq<PokemonAbilityExt>,
    moves: seq<PokemonMoveExt>,
    species: PokemonSpecies)

  // Abilities

  /** A reference names a fetched ability when both names agree, a missing name counting as `""`. */
  predicate AbilityMatches(a: PokemonAbility, ext: PokemonAbilityExt)
  {
    a.ability.Some? && ext.name.GetOr("") == a.ability.value.name.GetOr("")
  }

  /** The first fetched ability the reference names, if any. */
  function FetchedAbility(fetched: seq<PokemonAbilityExt>, a: PokemonAbility): (r: Option<PokemonAbilityExt>)
    ensures r.None? <==> forall k :: 0 <= k < |fetched| ==> !AbilityMatches(a, fetched[k])
    ensures r.Some? ==> exists k :: 0 <= k < |fetched| && fetched[k] == r.value && AbilityMatches(a, r.value) &&
                                    forall j :: 0 <= j < k ==> !AbilityMatches(a, fetched[j])
  {
    Find(fetched, ext => AbilityMatches(a, ext))
  }

  /** The row of one reference, joined with its fetched ability. */
  function AbilityRow(fetched: seq<PokemonAbilityExt>): PokemonAbility -> Option<Row>
  {
    a => RenderableAsRow(a, FetchedAbility(fetched, a))
  }

  /** Whether some fetched ability is named by the reference. */
  function HasFetchedAbility(fetched: seq<PokemonAbilityExt>): PokemonAbility -> bool
  {
    a => FetchedAbility(fetched, a).Some?
  }

  /** `get_renderable_abilities`: at most one row per reference, in the Pokémon's order. */
  function RenderableAbilities(info: ExtendedPokemonInfo): (rows: seq<Row>)
    ensures info.pokemon.abilities.None? ==> rows == []
    ensures |rows| <= |info.pokemon.abilities.GetOr([])|
  {
    match info.pokemon.abilities
    case None => []
    case Some(refs) => FilterMap(refs, AbilityRow(info.abilities))
  }

  /**
   * The rows are those of the references that name a fetched ability, in
   * order: each the three-cell row of the reference joined with the first
   * fetched ability of that name.
   */
  lemma AbilityRowsOfMatches(info: ExtendedPokemonInfo)
    requires info.pokemon.abilities.Some?
    ensures var kept := Filter(info.pokemon.abilities.value, HasFetchedAbility(info.abilities));
            var rows := RenderableAbilities(info);
            |rows| == |kept| &&
            forall k :: 0 <= k < |kept| ==>
              FetchedAbility(info.abilities, kept[k]).Some? &&
              Some(rows[k]) == RenderableAsRow(kept[k], FetchedAbility(info.abilities, kept[k])) &&
              |rows[k]| == 3
  {
    var refs := info.pokemon.abilities.value;
    var kept := Filter(refs, HasFetchedAbility(info.abilities));
    FilterMapIsFilterThenMap(refs, AbilityRow(info.abilities), HasFetchedAbility(info.abilities));
    assert forall k :: 0 <= k < |kept| ==> HasFetchedAbility(info.abilities)(kept[k]);
  }

  /** A reference without its ability resource never matches, so it gives no row. */
  lemma UnnamedReferenceDropped(fetched: seq<PokemonAbilityExt>, a: PokemonAbility)
    requires a.ability.None?
    ensures FetchedAbility(fetched, a).None? && AbilityRow(fetched)(a).None?
  {
  }

  // Basic information

  /** The species cells whose renderers live with the species record. */
  datatype SpeciesField = BaseHappiness | CaptureRate | Color | IsLegendary

  /** The labels of the basic information table, top to bottom. */
  const BasicInfoLabels: seq<string> :=
    ["ID", "Order", "Name", "Types", "Height", "Weight", "Base Experience", "Base Happiness",
     "Capture Rate", "Color", "Is Legendary"]

  /**
   * `get_renderable_basic_info_items`: eleven two-cell rows, a padded label
   * and its value, the types cell being the type spans side by side.
   */
  function BasicInfoItems(info: ExtendedPokemonInfo, styledType: string -> string,
                          speciesCell: (PokemonSpecies, SpeciesField) -> string): (rows: seq<Row>)
    ensures |rows| == |BasicInfoLabels| == 11
    ensures forall k :: 0 <= k < |rows| ==> |rows[k]| == 2 && rows[k][0] == AppendPadding(BasicInfoLabels[k]) &&
                                            rows[k][1] == BasicInfoValues(info, styledType, speciesCell)[k]
  {
    var values := BasicInfoValues(info, styledType, speciesCell);
    seq(11, k requires 0 <= k < 11 => [AppendPadding(BasicInfoLabels[k]), values[k]])
  }

  /** The value cells of the basic information table, in the order of the labels. */
  function BasicInfoValues(info: ExtendedPokemonInfo, styledType: string -> string,
                           speciesCell: (PokemonSpecies, SpeciesField) -> string): (values: seq<string>)
    ensures |values| == 11
  {
    [RenderableId(info.pokemon), RenderableOrder(info.pokemon), Pokemons.RenderableName(info.pokemon),
     Flatten(RenderableTypes(info.pokemon, styledType)), RenderableHeight(info.pokemon),
     RenderableWeight(info.pokemon), RenderableBaseExperience(info.pokemon),
     speciesCell(info.species, BaseHappiness), speciesCell(info.species, CaptureRate),
     speciesCell(info.species, Color), speciesCell(info.species, IsLegendary)]
  }

  /**
   * The value cells of the Pokémon's own facts: each label is filled by the
   * renderer of that field (`BasicInfoItems` puts value `k` after label `k`).
   */
  lemma BasicInfoPokemonCells(info: ExtendedPokemonInfo, styledType: string -> string,
                              speciesCell: (PokemonSpecies, SpeciesField) -> string)
    ensures var values := BasicInfoValues(info, styledType, speciesCell);
            var p := info.pokemon;
            BasicInfoLabels[0] == "ID" && values[0] == RenderableId(p) &&
            BasicInfoLabels[1] == "Order" && values[1] == RenderableOrder(p) &&
            BasicInfoLabels[2] == "Name" && values[2] == Pokemons.RenderableName(p) &&
            BasicInfoLabels[3] == "Types" && values[3] == Flatten(RenderableTypes(p, styledType)) &&
            BasicInfoLabels[4] == "Height" && values[4] == RenderableHeight(p) &&
            BasicInfoLabels[5] == "Weight" && values[5] == RenderableWeight(p) &&
            BasicInfoLabels[6] == "Base Experience" && values[6] == RenderableBaseExperience(p)
  {
    var p := info.pokemon;
    var id, order, name := RenderableId(p), RenderableOrder(p), Pokemons.RenderableName(p);
    var types, height := Flatten(RenderableTypes(p, styledType)), RenderableHeight(p);
    var weight, experience := RenderableWeight(p), RenderableBaseExperience(p);
    assert BasicInfoValues(info, styledType, speciesCell) ==
           [id, order, name, types, height, weight, experience,
            speciesCell(info.species, BaseHappiness), speciesCell(info.species, CaptureRate),
            speciesCell(info.species, Color), speciesCell(info.species, IsLegendary)];
  }

  /** The value cells of the species facts, each from `speciesCell` for its own field. */
  lemma BasicInfoSpeciesCells(info: ExtendedPokemonInfo, styledType: string -> string,
                              speciesCell: (PokemonSpecies, SpeciesField) -> string)
    ensures var values := BasicInfoValues(info, styledType, speciesCell);
            BasicInfoLabels[7] == "Base Happiness" && values[7] == speciesCell(info.species, BaseHappiness) &&
            BasicInfoLabels[8] == "Capture Rate" && values[8] == speciesCell(info.species, CaptureRate) &&
            BasicInfoLabels[9] == "Color" && values[9] == speciesCell(info.species, Color) &&
            BasicInfoLabels[10] == "Is Legendary" && values[10] == speciesCell(info.species, IsLegendary)
  {
  }

  // Moves of one version

  /** A move the Pokémon learns in the selected version, with its (non-empty) details there. */
  datatype PreparedMove = PreparedMove(pokemonMove: PokemonMove, versions: seq<PokemonMoveVersion>)

  /** A move is kept with its details when it has some for the version. */
  function PrepareMove(version: string, detailsFor: (PokemonMove, string) -> Option<seq<PokemonMoveVersion>>)
    : PokemonMove -> Option<PreparedMove>
  {
    m => match detailsFor(m, version)
         case None => None
         case Some(details) => if details == [] then None else Some(PreparedMove(m, details))
  }

  /** Whether a move has details for the version. */
  function HasDetails(version: string, detailsFor: (PokemonMove, string) -> Option<seq<PokemonMoveVersion>>)
    : PokemonMove -> bool
  {
    m => detailsFor(m, version).Some? && detailsFor(m, version).value != []
  }

  /**
   * `get_prepared_moves`: the moves with details for the version, in order,
   * each with those details; none without a moves list. `detailsFor` stands
   * for `get_renderable_version_group_details`.
   */
  function PreparedMoves(info: ExtendedPokemonInfo, version: string,
                         detailsFor: (PokemonMove, string) -> Option<seq<PokemonMoveVersion>>)
    : (r: seq<PreparedMove>)
    ensures info.pokemon.moves.None? ==> r == []
  {
    match info.pokemon.moves
    case None => []
    case Some(moves) => FilterMap(moves, PrepareMove(version, detailsFor))
  }

  /** The prepared moves are the moves with details, in order, each paired with its details. */
  lemma PreparedMovesSpec(info: ExtendedPokemonInfo, version: string,
                          detailsFor: (PokemonMove, string) -> Option<seq<PokemonMoveVersion>>)
    requires info.pokemon.moves.Some?
    ensures var kept := Filter(info.pokemon.moves.value, HasDetails(version, detailsFor));
            var prepared := PreparedMoves(info, version, detailsFor);
            |prepared| == |kept| &&
            forall k :: 0 <= k < |kept| ==> prepared[k].pokemonMove == kept[k] &&
                                            prepared[k].versions != [] &&
                                            Some(prepared[k].versions) == detailsFor(kept[k], version)
  {
    var moves := info.pokemon.moves.value;
    FilterMapIsFilterThenMap(moves, PrepareMove(version, detailsFor), HasDetails(version, detailsFor));
    var kept := Filter(moves, HasDetails(version, detailsFor));
    assert forall k :: 0 <= k < |kept| ==> HasDetails(version, detailsFor)(kept[k]);
  }

  /** `Ord::cmp` on integers. */
  function IntCmp(a: int, b: int): (r: Ordering)
    ensures r == Equal <==> a == b
    ensures r == Less <==> a < b
  {
    if a < b then Less else if a == b then Equal else Greater
  }

  /** `Ord::cmp` on strings: lexicographic by character, a proper prefix first. */
  function StrCmp(a: string, b: string): Ordering
    decreases |a|
  {
    if a == [] && b == [] then Equal
    else if a == [] then Less
    else if b == [] then Greater
    else if a[0] < b[0] then Less
    else if a[0] > b[0] then Greater
    else StrCmp(a[1..], b[1..])
  }

  lemma {:induction false} StrCmpEqual(a: string, b: string)
    ensures StrCmp(a, b) == Equal <==> a == b
    decreases |a|
  {
    if a != [] && b != [] && a[0] == b[0] {
      StrCmpEqual(a[1..], b[1..]);
      assert a == [a[0]] + a[1..] && b == [b[0]] + b[1..];
    }
  }

  lemma {:induction false} StrCmpReverse(a: string, b: string)
    ensures StrCmp(b, a) == Reverse(StrCmp(a, b))
    decreases |a|
  {
    if a != [] && b != [] && a[0] == b[0] {
      StrCmpReverse(a[1..], b[1..]);
    }
  }

  lemma {:induction false} StrCmpTransitive(a: string, b: string, c: string)
    requires StrCmp(a, b) != Greater && StrCmp(b, c) != Greater
    ensures StrCmp(a, c) != Greater
    decreases |a|
  {
    if a != [] && b != [] && c != [] && a[0] == b[0] == c[0] {
      StrCmpTransitive(a[1..], b[1..], c[1..]);
    }
  }

  /** The details a move is sorted by: the first of its details for the version. */
  function SortDetail(m: PreparedMove): PokemonMoveVersion
    requires m.versions != []
  {
    m.versions[0]
  }

  /**
   * The `sort_by` comparator: by the first details' level, then by their
   * learn-method names; a comparison with a missing side is `Equal`.
   */
  function CompareMoves(x: PreparedMove, y: PreparedMove): (r: Ordering)
  {
    if x.versions == [] || y.versions == [] then Equal
    else
      var a, b := SortDetail(x), SortDetail(y);
      var levelCmp := if a.levelLearnedAt.Some? && b.levelLearnedAt.Some?
                      then IntCmp(a.levelLearnedAt.value as int, b.levelLearnedAt.value as int)
                      else Equal;
      var methodCmp := if a.moveLearnMethod.Some? && b.moveLearnMethod.Some?
                       then StrCmp(NameOrStub(a.moveLearnMethod.value), NameOrStub(b.moveLearnMethod.value))
                       else Equal;
      Then(levelCmp, methodCmp)
  }

  /** The comparator is antisymmetric on all moves, complete or not. */
  lemma CompareMovesReverse(x: PreparedMove, y: PreparedMove)
    ensures CompareMoves(y, x) == Reverse(CompareMoves(x, y))
  {
    if x.versions != [] && y.versions != [] {
      var a, b := SortDetail(x), SortDetail(y);
      if a.moveLearnMethod.Some? && b.moveLearnMethod.Some? {
        StrCmpReverse(NameOrStub(a.moveLearnMethod.value), NameOrStub(b.moveLearnMethod.value));
      }
    }
  }

  /** A move whose first details give both a level and a learn method. */
  predicate Complete(m: PreparedMove)
  {
    m.versions != [] && SortDetail(m).levelLearnedAt.Some? && SortDetail(m).moveLearnMethod.Some?
  }

  /** The level the move is sorted by. */
  function Level(m: PreparedMove): int
    requires Complete(m)
  {
    SortDetail(m).levelLearnedAt.value as int
  }

  /** The learn-method name the move is sorted by. */
  function MethodName(m: PreparedMove): string
    requires Complete(m)
  {
    NameOrStub(SortDetail(m).moveLearnMethod.value)
  }

  /** On complete moves the comparator is lexicographic on (level, method name). */
  lemma CompareComplete(x: PreparedMove, y: PreparedMove)
    requires Complete(x) && Complete(y)
    ensures CompareMoves(x, y) == Then(IntCmp(Level(x), Level(y)), StrCmp(MethodName(x), MethodName(y)))
    ensures CompareMoves(x, y) == Equal <==> Level(x) == Level(y) && MethodName(x) == MethodName(y)
  {
    StrCmpEqual(MethodName(x), MethodName(y));
  }

  /** On complete moves "not greater" is transitive, so the comparator is a total preorder there. */
  lemma CompareTransitive(x: PreparedMove, y: PreparedMove, z: PreparedMove)
    requires Complete(x) && Complete(y) && Complete(z)
    requires CompareMoves(x, y) != Greater && CompareMoves(y, z) != Greater
    ensures CompareMoves(x, z) != Greater
  {
    CompareComplete(x, y);
    CompareComplete(y, z);
    CompareComplete(x, z);
    if Level(x) == Level(y) == Level(z) {
      StrCmpTransitive(MethodName(x), MethodName(y), MethodName(z));
    }
  }

  predicate AllComplete(s: seq<PreparedMove>)
  {
    forall k :: 0 <= k < |s| ==> Complete(s[k])
  }

  /** On complete moves the comparator is a total preorder. */
  lemma CompleteMovesTotalPreorder(s: seq<PreparedMove>)
    requires AllComplete(s)
    ensures TotalPreorderOn(s, CompareMoves)
  {
    forall x, y | x in s && y in s
      ensures CompareMoves(y, x) == Reverse(CompareMoves(x, y))
    {
      CompareMovesReverse(x, y);
    }
    forall x, y, z | x in s && y in s && z in s && CompareMoves(x, y) != Greater && CompareMoves(y, z) != Greater
      ensures CompareMoves(x, z) != Greater
    {
      CompareTransitive(x, y, z);
    }
  }

  /** Sorting complete moves gives complete moves. */
  lemma MovesSortComplete(s: seq<PreparedMove>)
    requires AllComplete(s)
    ensures AllComplete(StableSort(s, CompareMoves))
  {
    StableSortElements(s, CompareMoves);
  }

  /**
   * With a level and a method on every move, the sorted moves are ordered
   * by level, and by learn-method name within a level.
   */
  lemma MovesSortSorted(s: seq<PreparedMove>)
    requires AllComplete(s)
    ensures var r := StableSort(s, CompareMoves);
            AllComplete(r) &&
            forall i, j :: 0 <= i < j < |r| ==>
              Level(r[i]) < Level(r[j]) ||
              (Level(r[i]) == Level(r[j]) && StrCmp(MethodName(r[i]), MethodName(r[j])) != Greater)
  {
    var r := StableSort(s, CompareMoves);
    MovesSortComplete(s);
    CompleteMovesTotalPreorder(s);
    StableSortSorted(s, CompareMoves);
    forall i, j | 0 <= i < j < |r|
      ensures Level(r[i]) < Level(r[j]) ||
              (Level(r[i]) == Level(r[j]) && StrCmp(MethodName(r[i]), MethodName(r[j])) != Greater)
    {
      CompareComplete(r[i], r[j]);
    }
  }

  /**
   * The sort is stable: the moves with the same level and learn method as
   * any complete move keep their input order.
   */
  lemma MovesSortKeepsTies(s: seq<PreparedMove>, y: PreparedMove)
    requires AllComplete(s) && Complete(y)
    ensures Filter(StableSort(s, CompareMoves), TiesWith(y, CompareMoves)) == Filter(s, TiesWith(y, CompareMoves))
  {
    forall e, x | e in s && x in s && CompareMoves(e, y) == Equal && CompareMoves(x, y) == Equal
      ensures CompareMoves(e, x) == Equal
    {
      CompareComplete(e, y);
      CompareComplete(x, y);
      CompareComplete(e, x);
    }
    StableSortKeepsTies(s, CompareMoves, y);
  }

  // The rows of the moves

  /** A move reference names a fetched move when both names agree, a missing name counting as `""`. */
  predicate MoveMatches(m: PokemonMove, ext: PokemonMoveExt)
  {
    m.deMove.Some? && ext.name.GetOr("") == m.deMove.value.name.GetOr("")
  }

  /** The first fetched move the reference names, if any. */
  function FetchedMove(fetched: seq<PokemonMoveExt>, m: PokemonMove): (r: Option<PokemonMoveExt>)
    ensures r.None? <==> forall k :: 0 <= k < |fetched| ==> !MoveMatches(m, fetched[k])
    ensures r.Some? ==> exists k :: 0 <= k < |fetched| && fetched[k] == r.value && MoveMatches(m, r.value) &&
                                    forall j :: 0 <= j < k ==> !MoveMatches(m, fetched[j])
  {
    Find(fetched, ext => MoveMatches(m, ext))
  }

  /**
   * The row of one prepared move, by `moveRow` (standing for
   * `PokemonMove::get_renderable_as_row`) applied to the move, its fetched
   * record and its first details. Prepared moves always have details; the
   * source unwraps them.
   */
  function MoveRow(fetched: seq<PokemonMoveExt>,
                   moveRow: (PokemonMove, Option<PokemonMoveExt>, PokemonMoveVersion) -> Option<Row>)
    : PreparedMove -> Option<Row>
  {
    (pm: PreparedMove) => if pm.versions == [] then None
          else moveRow(pm.pokemonMove, FetchedMove(fetched, pm.pokemonMove), pm.versions[0])
  }

  /**
   * The rows of the sorted prepared moves, dropping those `moveRow` gives
   * none for; `MoveRowsSpec` says which rows remain.
   */
  function MoveRows(sorted: seq<PreparedMove>, fetched: seq<PokemonMoveExt>,
                    moveRow: (PokemonMove, Option<PokemonMoveExt>, PokemonMoveVersion) -> Option<Row>)
    : (rows: seq<Row>)
    ensures |rows| <= |sorted|
  {
    FilterMap(sorted, MoveRow(fetched, moveRow))
  }

  /**
   * `get_renderable_moves`: prepares the moves of the version, sorts them
   * in place and turns each into a row.
   */
  method RenderableMoves(info: ExtendedPokemonInfo, version: string,
                         detailsFor: (PokemonMove, string) -> Option<seq<PokemonMoveVersion>>,
                         moveRow: (PokemonMove, Option<PokemonMoveExt>, PokemonMoveVersion) -> Option<Row>)
    returns (rows: seq<Row>)
    ensures rows == MoveRows(StableSort(PreparedMoves(info, version, detailsFor), CompareMoves), info.moves, moveRow)
    ensures |rows| <= |PreparedMoves(info, version, detailsFor)|
  {
    var prepared := PreparedMoves(info, version, detailsFor);
    var a := new PreparedMove[|prepared|](k requires 0 <= k < |prepared| => prepared[k]);
    assert a[..] == prepared;
    SortBy(a, CompareMoves);
    rows := MoveRows(a[..], info.moves, moveRow);
  }

  /** Whether `moveRow` gives a row for the prepared move. */
  function GivesRow(fetched: seq<PokemonMoveExt>,
                    moveRow: (PokemonMove, Option<PokemonMoveExt>, PokemonMoveVersion) -> Option<Row>)
    : PreparedMove -> bool
  {
    (pm: PreparedMove) => MoveRow(fetched, moveRow)(pm).Some?
  }

  /**
   * The rows are those of the sorted moves that give one, in sorted order:
   * each the row of the move, joined with the first fetched move of its
   * name, for its first details.
   */
  lemma MoveRowsSpec(sorted: seq<PreparedMove>, fetched: seq<PokemonMoveExt>,
                     moveRow: (PokemonMove, Option<PokemonMoveExt>, PokemonMoveVersion) -> Option<Row>)
    ensures var kept := Filter(sorted, GivesRow(fetched, moveRow));
            var rows := MoveRows(sorted, fetched, moveRow);
            |rows| == |kept| &&
            forall k :: 0 <= k < |kept| ==>
              kept[k].versions != [] &&
              Some(rows[k]) == moveRow(kept[k].pokemonMove, FetchedMove(fetched, kept[k].pokemonMove),
                                       kept[k].versions[0])
  {
    var kept := Filter(sorted, GivesRow(fetched, moveRow));
    FilterMapIsFilterThenMap(sorted, MoveRow(fetched, moveRow), GivesRow(fetched, moveRow));
    assert forall k :: 0 <= k < |kept| ==> GivesRow(fetched, moveRow)(kept[k]);
  }

  /** Whether the prepared move's reference names some fetched move. */
  function HasFetchedMove(fetched: seq<PokemonMoveExt>): PreparedMove -> bool
  {
    (pm: PreparedMove) => FetchedMove(fetched, pm.pokemonMove).Some?
  }

  /**
   * When `moveRow` gives no row without a fetched move, the moves that name
   * no fetched move are dropped: the rows are exactly those of the moves
   * that name one, so there are no more rows than such moves.
   */
  lemma {:induction false} UnmatchedMovesDropped(sorted: seq<PreparedMove>, fetched: seq<PokemonMoveExt>,
                                                 moveRow: (PokemonMove, Option<PokemonMoveExt>, PokemonMoveVersion) -> Option<Row>)
    requires forall m, v :: moveRow(m, None, v).None?
    ensures MoveRows(sorted, fetched, moveRow) == MoveRows(Filter(sorted, HasFetchedMove(fetched)), fetched, moveRow)
    ensures |MoveRows(sorted, fetched, moveRow)| <= |Filter(sorted, HasFetchedMove(fetched))|
    decreases |sorted|
  {
    if sorted != [] {
      var p, f := HasFetchedMove(fetched), MoveRow(fetched, moveRow);
      var head, tail := sorted[0], Filter(sorted[1..], p);
      UnmatchedMovesDropped(sorted[1..], fetched, moveRow);
      if p(head) {
        assert Filter(sorted, p) == [head] + tail;
        assert ([head] + tail)[0] == head && ([head] + tail)[1..] == tail;
      } else {
        assert f(head).None?;
        assert Filter(sorted, p) == tail;
      }
    }
  }

  /** Every prepared move has details, so the first of them is always there to sort and show by. */
  lemma PreparedMovesHaveDetails(info: ExtendedPokemonInfo, version: string,
                                 detailsFor: (PokemonMove, string) -> Option<seq<PokemonMoveVersion>>)
    ensures forall k :: 0 <= k < |PreparedMoves(info, version, detailsFor)| ==>
                        PreparedMoves(info, version, detailsFor)[k].versions != []
  {
    if info.pokemon.moves.Some? {
      PreparedMovesSpec(info, version, detailsFor);
    }
  }
}
