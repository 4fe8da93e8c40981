/** An ability's effect text in one language (src/models/verbose_effect.rs). */
module Effects {
  import opened Wrappers
  import opened ApiModels

  datatype VerboseEffect = VerboseEffect(
    effect: Option<string>,
    shortEffect: Option<string>,
    language: Option<NamedApiResource>)

  /** `get_language`: the language's name, or `""` when the language or its name is absent. */
  function GetLanguage(e: VerboseEffect): (r: string)
    ensures e.language.Some? && e.language.value.name.Some? ==> r == e.language.value.name.value
    ensures e.language.None? || e.language.value.name.None? ==> r == ""
  {
    match e.language
    case None => ""
    case Some(language) => language.name.GetOr("")
  }

  /** `get_effect`: the short effect text, or `""` when it is absent. */
  function GetEffect(e: VerboseEffect): (r: string)
    ensures e.shortEffect.Some? ==> r == e.shortEffect.value
    ensures e.shortEffect.None? ==> r == ""
  {
    e.shortEffect.GetOr("")
  }

  /** The long `effect` text never shows: only `short_effect` does. */
  lemma GetEffectIgnoresEffect(e: VerboseEffect, other: Option<string>)
    ensures GetEffect(e.(effect := other)) == GetEffect(e)
  {
  }

  /** With both texts present, the short one is shown, as the ability tests expect. */
  lemma GetEffectOfStub()
    ensures var e := VerboseEffect(Some("effect"), Some("short effect"),
                                   Some(NamedApiResource(Some("en"), None)));
            GetEffect(e) == "short effect" && GetLanguage(e) == "en"
  {
  }
}
