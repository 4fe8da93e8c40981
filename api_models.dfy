/**
 * The records the remote API returns that carry no display logic of their
 * own (src/models/named_api_resource.rs, api_resource.rs, list_wrapper.rs,
 * flavor_text_entry.rs, version_game_index.rs, pokemon_stat.rs,
 * pokemon_held_item.rs, pokemon_move.rs, pokemon_species.rs and the record
 * of pokemon_type.rs). Every field the API may leave out is an `Option`.
 */
module ApiModels {
  import opened Wrappers
  import opened Numbers

  /** A display row: one string per cell. */
  type Row = seq<string>

  /** A reference to another resource, by name and locator. */
  datatype NamedApiResource = NamedApiResource(name: Option<string>, url: Option<string>)

  /** What `get_name_or_stub` falls back to when a resource has no name. */
  const NameStub: string := ""

  /** `get_name_or_stub`: the resource's name, or the stub when it has none. */
  function NameOrStub(r: NamedApiResource): (s: string)
    ensures r.name.Some? ==> s == r.name.value
    ensures r.name.None? ==> s == NameStub
  {
    r.name.GetOr(NameStub)
  }

  datatype ApiResource = ApiResource(url: string)

  /** The envelope of a listing endpoint. */
  datatype ListWrapper = ListWrapper(count: Option<i32>, results: Option<seq<NamedApiResource>>)

  datatype FlavorTextEntry = FlavorTextEntry(
    flavorText: Option<string>,
    versionGroup: Option<NamedApiResource>,
    language: Option<NamedApiResource>)

  datatype VersionGameIndex = VersionGameIndex(gameIndex: Option<i32>, version: Option<NamedApiResource>)

  datatype PokemonStat = PokemonStat(stat: Option<NamedApiResource>, effort: Option<i32>, baseStat: Option<i32>)

  datatype PokemonHeldItemVersion = PokemonHeldItemVersion(rarity: Option<i32>, version: Option<NamedApiResource>)

  datatype PokemonHeldItem = PokemonHeldItem(
    item: Option<NamedApiResource>,
    versionDetails: Option<seq<PokemonHeldItemVersion>>)

  /** How and at which level a move is learnt in one version group. */
  datatype PokemonMoveVersion = PokemonMoveVersion(
    moveLearnMethod: Option<NamedApiResource>,
    versionGroup: Option<NamedApiResource>,
    levelLearnedAt: Option<i32>)

  /** A move as the Pokémon record refers to it (`move` in the API). */
  datatype PokemonMove = PokemonMove(
    deMove: Option<NamedApiResource>,
    versionGroupDetails: Option<seq<PokemonMoveVersion>>)

  /** A move as fetched from its own endpoint. */
  datatype PokemonMoveExt = PokemonMoveExt(
    id: Option<i32>,
    name: Option<string>,
    accuracy: Option<i32>,
    pp: Option<i32>,
    power: Option<i32>,
    pkType: Option<NamedApiResource>,
    flavorTextEntries: Option<seq<FlavorTextEntry>>)

  datatype PokedexNumber = PokedexNumber(entryNumber: Option<i32>, pokedex: Option<NamedApiResource>)

  datatype PokemonSpecies = PokemonSpecies(
    genderRate: Option<i32>,
    captureRate: Option<i32>,
    color: Option<NamedApiResource>,
    baseHappiness: Option<i32>,
    isLegendary: Option<bool>,
    evolutionChain: Option<ApiResource>,
    flavorTextEntries: Option<seq<FlavorTextEntry>>,
    pokedexNumbers: Option<seq<PokedexNumber>>)

  /** One of a Pokémon's types (`type` in the API). */
  datatype PokemonType = PokemonType(slot: Option<i32>, deType: Option<NamedApiResource>)
}
