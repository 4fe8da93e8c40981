/**
 * The Pokémon record (src/models/pokemon.rs) and its display cells: the
 * scalar fields in decimal, the formatted name, one span per type, one row
 * per stat and the concatenated rows of the held items.
 */
module Pokemons {
  import opened Wrappers
  import opened Numbers
  import opened Utils
  import opened Seqs
  import opened ApiModels
  import opened Abilities

  datatype Pokemon = Pokemon(
    id: Option<i32>,
    name: Option<string>,
    baseExperience: Option<i32>,
    height: Option<i32>,
    isDefault: Option<bool>,
    order: Option<i32>,
    weight: Option<i32>,
    abilities: Option<seq<PokemonAbility>>,
    forms: Option<seq<NamedApiResource>>,
    gameIndices: Option<seq<VersionGameIndex>>,
    heldItems: Option<seq<PokemonHeldItem>>,
    locationAreaEncounters: Option<string>,
    moves: Option<seq<PokemonMove>>,
    species: Option<NamedApiResource>,
    stats: Option<seq<PokemonStat>>,
    types: Option<seq<PokemonType>>)

  /** An optional number in decimal, or `""`: the shape every scalar renderer shares. */
  function RenderableNumber(n: Option<i32>): (r: string)
    ensures n.None? <==> r == ""
    ensures n.Some? ==> ParseInt(r) == Some(n.value as int)
  {
    match n
    case None => ""
    case Some(v) =>
      IntRoundTrip(v as int);
      IntToString(v as int)
  }

  /** `get_renderable_id`. */
  function RenderableId(p: Pokemon): (r: string)
    ensures p.id.None? <==> r == ""
    ensures p.id.Some? ==> ParseInt(r) == Some(p.id.value as int)
  {
    RenderableNumber(p.id)
  }

  /** `get_renderable_order`. */
  function RenderableOrder(p: Pokemon): (r: string)
    ensures p.order.None? <==> r == ""
    ensures p.order.Some? ==> ParseInt(r) == Some(p.order.value as int)
  {
    RenderableNumber(p.order)
  }

  /** `get_renderable_height`. */
  function RenderableHeight(p: Pokemon): (r: string)
    ensures p.height.None? <==> r == ""
    ensures p.height.Some? ==> ParseInt(r) == Some(p.height.value as int)
  {
    RenderableNumber(p.height)
  }

  /** `get_renderable_weight`. */
  function RenderableWeight(p: Pokemon): (r: string)
    ensures p.weight.None? <==> r == ""
    ensures p.weight.Some? ==> ParseInt(r) == Some(p.weight.value as int)
  {
    RenderableNumber(p.weight)
  }

  /** `get_renderable_base_experience`. */
  function RenderableBaseExperience(p: Pokemon): (r: string)
    ensures p.baseExperience.None? <==> r == ""
    ensures p.baseExperience.Some? ==> ParseInt(r) == Some(p.baseExperience.value as int)
  {
    RenderableNumber(p.baseExperience)
  }

  /** Different numbers never render alike. */
  lemma RenderableNumberInjective(a: Option<i32>, b: Option<i32>)
    requires RenderableNumber(a) == RenderableNumber(b)
    ensures a == b
  {
    if a.Some? && b.Some? {
      assert Some(a.value as int) == Some(b.value as int);
    }
  }

  /** `get_renderable_name`: the formatted name (no padding), or `""`. */
  function RenderableName(p: Pokemon): (r: string)
    ensures p.name.None? ==> r == ""
    ensures p.name.Some? ==> |r| == |p.name.value| && r == CapitalizeWords(p.name.value, true)
  {
    match p.name
    case None => ""
    case Some(name) =>
      SplitCapitalizeShape(name);
      SplitCapitalizeIsCapitalizeWords(name);
      SplitCapitalize(name)
  }

  /**
   * `PokemonType::get_renderable`: the styled span of the type's name, or
   * `""` when the type or its name is absent. The palette is `styledType`.
   */
  function TypeSpan(t: PokemonType, styledType: string -> string): (r: string)
    ensures t.deType.Some? && t.deType.value.name.Some? ==> r == styledType(t.deType.value.name.value)
    ensures t.deType.None? || t.deType.value.name.None? ==> r == ""
  {
    match t.deType
    case None => ""
    case Some(deType) =>
      match deType.name
      case None => ""
      case Some(name) => styledType(name)
  }

  /** `get_renderable_types`: one span per type, in order; none without types. */
  function RenderableTypes(p: Pokemon, styledType: string -> string): (r: seq<string>)
    ensures p.types.None? ==> r == []
    ensures p.types.Some? ==> |r| == |p.types.value| &&
                              forall k :: 0 <= k < |r| ==> r[k] == TypeSpan(p.types.value[k], styledType)
  {
    match p.types
    case None => []
    case Some(types) => Map(types, t => TypeSpan(t, styledType))
  }

  /** `get_renderable_stats`: one row per stat, in order; none without stats. */
  function RenderableStats(p: Pokemon, statRow: PokemonStat -> Row): (r: seq<Row>)
    ensures p.stats.None? ==> r == []
    ensures p.stats.Some? ==> |r| == |p.stats.value| &&
                              forall k :: 0 <= k < |r| ==> r[k] == statRow(p.stats.value[k])
  {
    match p.stats
    case None => []
    case Some(stats) => Map(stats, statRow)
  }

  /** Listing more stats appends their rows after the others. */
  lemma RenderableStatsAppend(p: Pokemon, a: seq<PokemonStat>, b: seq<PokemonStat>, statRow: PokemonStat -> Row)
    ensures RenderableStats(p.(stats := Some(a + b)), statRow) ==
            RenderableStats(p.(stats := Some(a)), statRow) + RenderableStats(p.(stats := Some(b)), statRow)
  {
    MapAppend(a, b, statRow);
  }

  /** The rows of every held item, as `get_renderable_held_items` collects them. */
  function HeldItemRows(p: Pokemon, selectedVersion: string,
                        itemRows: (PokemonHeldItem, string) -> seq<Row>): seq<Row>
  {
    match p.heldItems
    case None => []
    case Some(items) => Flatten(Map(items, h => itemRows(h, selectedVersion)))
  }

  /**
   * `get_renderable_held_items`: extends one vector with each held item's
   * rows in turn; the rows of item `k` come after those of items before it.
   */
  method RenderableHeldItems(p: Pokemon, selectedVersion: string,
                             itemRows: (PokemonHeldItem, string) -> seq<Row>)
    returns (rows: seq<Row>)
    ensures rows == HeldItemRows(p, selectedVersion, itemRows)
  {
    match p.heldItems
    case None =>
      rows := [];
    case Some(items) =>
      var f := h => itemRows(h, selectedVersion);
      rows := [];
      var i := 0;
      while i < |items|
        invariant 0 <= i <= |items|
        invariant rows == Flatten(Map(items[..i], f))
      {
        var parts := Map(items[..i + 1], f);
        assert items[..i + 1][..i] == items[..i];
        assert parts[..i] == Map(items[..i], f);
        rows := rows + itemRows(items[i], selectedVersion);
        i := i + 1;
      }
      assert items[..|items|] == items;
  }

  /** No rows without held items; otherwise as many rows as all items give together. */
  lemma HeldItemRowsLength(p: Pokemon, selectedVersion: string,
                           itemRows: (PokemonHeldItem, string) -> seq<Row>)
    ensures p.heldItems.None? ==> HeldItemRows(p, selectedVersion, itemRows) == []
    ensures p.heldItems.Some? ==>
              |HeldItemRows(p, selectedVersion, itemRows)| ==
              TotalLength(Map(p.heldItems.value, h => itemRows(h, selectedVersion)))
  {
    if p.heldItems.Some? {
      FlattenLength(Map(p.heldItems.value, h => itemRows(h, selectedVersion)));
    }
  }

  /** The rows of held item `k` sit, unchanged, right after the rows of the items before it. */
  lemma HeldItemRowsOfItem(p: Pokemon, selectedVersion: string,
                           itemRows: (PokemonHeldItem, string) -> seq<Row>, k: nat)
    requires p.heldItems.Some? && k < |p.heldItems.value|
    ensures var parts := Map(p.heldItems.value, h => itemRows(h, selectedVersion));
            var rows := HeldItemRows(p, selectedVersion, itemRows);
            Offset(parts, k) + |itemRows(p.heldItems.value[k], selectedVersion)| == Offset(parts, k + 1) <= |rows| &&
            rows[Offset(parts, k)..Offset(parts, k + 1)] == itemRows(p.heldItems.value[k], selectedVersion)
  {
    FlattenPart(Map(p.heldItems.value, h => itemRows(h, selectedVersion)), k);
  }

  /** The Pokémon of the tests: raichu, id 1, order 1, height 10, weight 100, 200 base experience. */
  function StubPokemon(): Pokemon
  {
    Pokemon(Some(1), Some("raichu"), Some(200), Some(10), None, Some(1), Some(100),
            None, None, None, None, None, None, None, None, None)
  }

  lemma ScalarsOfStub()
    ensures RenderableId(StubPokemon()) == "1" && RenderableOrder(StubPokemon()) == "1"
    ensures RenderableHeight(StubPokemon()) == "10" && RenderableWeight(StubPokemon()) == "100"
    ensures RenderableBaseExperience(StubPokemon()) == "200"
  {
    assert NatToString(10) == NatToString(1) + "0";
    assert NatToString(100) == NatToString(10) + "0";
    assert NatToString(200) == NatToString(20) + "0";
    assert NatToString(20) == NatToString(2) + "0";
  }

  lemma NameOfStub()
    ensures RenderableName(StubPokemon()) == "Raichu"
  {
    SplitCapitalizeRaichu();
  }
}
