/**
 * An ability as the Pokémon record refers to it, and as fetched from its own
 * endpoint (src/models/pokemon_ability.rs).
 */
module Abilities {
  import opened Wrappers
  import opened Numbers
  import opened Utils
  import opened Seqs
  import opened ApiModels
  import opened Effects

  datatype PokemonAbility = PokemonAbility(
    isHidden: Option<bool>,
    slot: Option<i32>,
    ability: Option<NamedApiResource>)

  datatype PokemonAbilityExt = PokemonAbilityExt(
    id: Option<i32>,
    name: Option<string>,
    effectEntries: Option<seq<VerboseEffect>>,
    flavorTextEntries: Option<seq<FlavorTextEntry>>)

  /** `get_renderable_is_hidden`: "Yes" only for a known hidden ability. */
  function RenderableIsHidden(a: PokemonAbility): (r: string)
    ensures r == "Yes" || r == "No"
    ensures r == "Yes" <==> a.isHidden == Some(true)
  {
    if a.isHidden.GetOr(false) then "Yes" else "No"
  }

  /** `PokemonAbilityExt::get_renderable_name`: the formatted, padded name, or `""`. */
  function RenderableName(ext: PokemonAbilityExt): (r: string)
    ensures ext.name.None? ==> r == ""
    ensures ext.name.Some? ==> |r| == |ext.name.value| + 1 && r[0] == Padding &&
                               r[1..] == SplitCapitalize(ext.name.value)
  {
    match ext.name
    case None => ""
    case Some(name) =>
      SplitCapitalizeShape(name);
      AppendPadding(SplitCapitalize(name))
  }

  predicate IsEnglish(e: VerboseEffect)
  {
    GetLanguage(e) == "en"
  }

  /** Entry `k` is English and no entry before it is. */
  predicate IsFirstEnglish(entries: seq<VerboseEffect>, k: int)
  {
    0 <= k < |entries| && IsEnglish(entries[k]) &&
    forall j :: 0 <= j < k ==> !IsEnglish(entries[j])
  }

  /**
   * `get_renderable_effect_entry`: the short effect of the first English
   * entry, in list order; `""` when there are no entries or none is English.
   */
  function RenderableEffectEntry(ext: PokemonAbilityExt): (r: string)
    ensures ext.effectEntries.None? ==> r == ""
    ensures ext.effectEntries.Some? ==>
              (forall k :: 0 <= k < |ext.effectEntries.value| ==> !IsEnglish(ext.effectEntries.value[k])) ==>
              r == ""
    ensures ext.effectEntries.Some? ==>
              forall k :: IsFirstEnglish(ext.effectEntries.value, k) ==>
              r == GetEffect(ext.effectEntries.value[k])
  {
    match ext.effectEntries
    case None => ""
    case Some(entries) =>
      var english := Filter(entries, IsEnglish);
      FilterHeadIsFind(entries, IsEnglish);
      if english == [] then "" else GetEffect(english[0])
  }

  /** An entry in another language is never shown, even when it comes first. */
  lemma EffectEntryNeverForeign(ext: PokemonAbilityExt)
    requires ext.effectEntries.Some?
    requires RenderableEffectEntry(ext) != ""
    ensures exists i :: 0 <= i < |ext.effectEntries.value| &&
              IsEnglish(ext.effectEntries.value[i]) &&
              RenderableEffectEntry(ext) == GetEffect(ext.effectEntries.value[i])
  {
    var entries := ext.effectEntries.value;
    FilterHeadIsFind(entries, IsEnglish);
  }

  /**
   * `PokemonAbility::get_renderable_as_row`: no row without the fetched
   * ability; otherwise the three cells name, effect and hidden flag.
   */
  function RenderableAsRow(a: PokemonAbility, ext: Option<PokemonAbilityExt>): (r: Option<Row>)
    ensures r.None? <==> ext.None?
    ensures r.Some? ==> |r.value| == 3 &&
                        r.value[0] == RenderableName(ext.value) &&
                        r.value[1] == RenderableEffectEntry(ext.value) &&
                        r.value[2] == RenderableIsHidden(a)
  {
    match ext
    case None => None
    case Some(ability) =>
      Some([RenderableName(ability), RenderableEffectEntry(ability), RenderableIsHidden(a)])
  }

  /** The fetched ability of the tests: named "test", one English effect entry. */
  function StubAbilityExt(): PokemonAbilityExt
  {
    PokemonAbilityExt(
      Some(1), Some("test"),
      Some([VerboseEffect(Some("effect"), Some("short effect"), Some(NamedApiResource(Some("en"), None)))]),
      None)
  }

  /** The row the tests expect for a visible ability named "test". */
  lemma RenderableAsRowOfStub()
    ensures RenderableAsRow(PokemonAbility(Some(false), None, Some(NamedApiResource(Some("test"), None))),
                            Some(StubAbilityExt()))
            == Some(["\U{00A0}Test", "short effect", "No"])
  {
    var ext := StubAbilityExt();
    assert IsFirstEnglish(ext.effectEntries.value, 0);
    assert RenderableEffectEntry(ext) == "short effect";
    RenderableNameOfStub();
  }

  lemma RenderableNameOfStub()
    ensures RenderableName(StubAbilityExt()) == "\U{00A0}Test"
  {
    assert RenderableName(StubAbilityExt()) == AppendPadding(SplitCapitalize("test"));
    PaddedTest();
  }

  lemma PaddedTest()
    ensures AppendPadding(SplitCapitalize("test")) == "\U{00A0}Test"
  {
    SplitCapitalizeTest();
    PaddingLiteral();
  }

  lemma PaddingLiteral()
    ensures AppendPadding("Test") == "\U{00A0}Test"
  {
  }

  lemma SplitCapitalizeTest()
    ensures SplitCapitalize("test") == "Test"
  {
    SplitCapitalizeWithoutDash("test");
    UppercaseTest();
  }

  lemma UppercaseTest()
    ensures UppercaseFirstLetter("test") == "Test"
  {
  }
}
