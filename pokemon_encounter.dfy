/**
 * Where and how a Pokémon can be met (src/models/pokemon_encounter.rs): per
 * location area, per game version, the encounter methods, the level range
 * and the chance, filtered by the selected version group.
 */
module Encounters {
  import opened Wrappers
  import opened Numbers
  import opened Utils
  import opened Seqs
  import opened ApiModels

  datatype PokemonEncounterDetail = PokemonEncounterDetail(
    chance: Option<i32>,
    maxLevel: Option<i32>,
    minLevel: Option<i32>,
    encounterMethod: Option<NamedApiResource>)

  datatype PokemonEncounterVersionDetail = PokemonEncounterVersionDetail(
    maxChance: Option<i32>,
    version: Option<NamedApiResource>,
    encounterDetails: Option<seq<PokemonEncounterDetail>>)

  datatype PokemonEncounter = PokemonEncounter(
    locationArea: Option<NamedApiResource>,
    versionDetails: Option<seq<PokemonEncounterVersionDetail>>)

  /** `get_renderable_version`: the formatted version name, or `""`. */
  function RenderableVersion(vd: PokemonEncounterVersionDetail): (r: string)
    ensures vd.version.None? ==> r == ""
    ensures vd.version.Some? ==> |r| == |NameOrStub(vd.version.value)| &&
                                 r == CapitalizeWords(NameOrStub(vd.version.value), true)
  {
    match vd.version
    case None => ""
    case Some(version) =>
      SplitCapitalizeShape(NameOrStub(version));
      SplitCapitalizeIsCapitalizeWords(NameOrStub(version));
      SplitCapitalize(NameOrStub(version))
  }

  /** `get_renderable_max_chance`: the chance in decimal, or `""`. */
  function RenderableMaxChance(vd: PokemonEncounterVersionDetail): (r: string)
    ensures vd.maxChance.None? <==> r == ""
    ensures vd.maxChance.Some? ==> ParseInt(r) == Some(vd.maxChance.value as int)
  {
    match vd.maxChance
    case None => ""
    case Some(chance) =>
      IntRoundTrip(chance as int);
      IntToString(chance as int)
  }

  /** The formatted method name of a detail that has a method. */
  function MethodName(d: PokemonEncounterDetail): string
    requires d.encounterMethod.Some?
  {
    SplitCapitalize(NameOrStub(d.encounterMethod.value))
  }

  /** The formatted method names of the details that have one, in order, repeats included. */
  function MethodNames(details: seq<PokemonEncounterDetail>): (names: seq<string>)
    ensures |names| <= |details|
    decreases |details|
  {
    if details == [] then []
    else
      var last := details[|details| - 1];
      var names := MethodNames(details[..|details| - 1]);
      if last.encounterMethod.Some? then names + [MethodName(last)] else names
  }

  /** A name is among the method names exactly when some detail has that method. */
  lemma {:induction false} MethodNamesContents(details: seq<PokemonEncounterDetail>)
    ensures forall x :: x in MethodNames(details) <==>
                        exists k :: 0 <= k < |details| && details[k].encounterMethod.Some? &&
                                    x == MethodName(details[k])
    decreases |details|
  {
    if details != [] {
      var init := details[..|details| - 1];
      MethodNamesContents(init);
      assert forall k :: 0 <= k < |init| ==> init[k] == details[k];
    }
  }

  /**
   * What `get_renderable_methods` shows: the distinct method names in the
   * order they first occur, joined by ", "; `""` without any details.
   */
  function MethodsText(vd: PokemonEncounterVersionDetail): string
  {
    match vd.encounterDetails
    case None => ""
    case Some(details) => Join(Dedup(MethodNames(details)), ", ")
  }

  /**
   * The listed methods are exactly the formatted methods of the details,
   * each once, in order of first occurrence.
   */
  lemma MethodsListed(details: seq<PokemonEncounterDetail>)
    ensures forall x :: x in Dedup(MethodNames(details)) <==>
                        exists k :: 0 <= k < |details| && details[k].encounterMethod.Some? &&
                                    x == MethodName(details[k])
    ensures NoDuplicates(Dedup(MethodNames(details)))
    ensures forall i, j :: 0 <= i < j < |Dedup(MethodNames(details))| ==>
              Dedup(MethodNames(details))[i] in MethodNames(details) &&
              Dedup(MethodNames(details))[j] in MethodNames(details) &&
              FirstIndex(MethodNames(details), Dedup(MethodNames(details))[i]) <
              FirstIndex(MethodNames(details), Dedup(MethodNames(details))[j])
  {
    DedupSpec(MethodNames(details));
    MethodNamesContents(details);
  }

  /**
   * `get_renderable_methods`: walks the details, pushing each formatted
   * method name unless it is already in the list.
   */
  method RenderableMethods(vd: PokemonEncounterVersionDetail) returns (r: string)
    ensures r == MethodsText(vd)
  {
    match vd.encounterDetails
    case None =>
      r := "";
    case Some(details) =>
      var items: seq<string> := [];
      var i := 0;
      while i < |details|
        invariant 0 <= i <= |details|
        invariant items == Dedup(MethodNames(details[..i]))
      {
        var seen := details[..i];
        assert details[..i + 1][..i] == seen;
        if details[i].encounterMethod.Some? {
          var newMethod := SplitCapitalize(NameOrStub(details[i].encounterMethod.value));
          assert MethodNames(details[..i + 1]) == MethodNames(seen) + [newMethod];
          assert (MethodNames(seen) + [newMethod])[..|MethodNames(seen)|] == MethodNames(seen);
          if newMethod !in items {
            items := items + [newMethod];
          }
        }
        i := i + 1;
      }
      assert details[..|details|] == details;
      r := Join(items, ", ");
  }

  /** `Option`'s order: an absent value is below every present one. */
  predicate OptionLess(a: Option<i32>, b: Option<i32>)
  {
    (a.None? && b.Some?) || (a.Some? && b.Some? && a.value < b.value)
  }

  /** `max_by` on `max_level`: a detail whose `max_level` no other detail exceeds. */
  function MaxByMaxLevel(details: seq<PokemonEncounterDetail>): (r: Option<PokemonEncounterDetail>)
    ensures r.None? <==> details == []
    ensures r.Some? ==> r.value in details &&
                        forall k :: 0 <= k < |details| ==> !OptionLess(r.value.maxLevel, details[k].maxLevel)
    decreases |details|
  {
    if details == [] then None
    else if |details| == 1 then Some(details[0])
    else
      var init := details[..|details| - 1];
      var last := details[|details| - 1];
      var best := MaxByMaxLevel(init).value;
      assert forall k :: 0 <= k < |init| ==> init[k] == details[k];
      if OptionLess(last.maxLevel, best.maxLevel) then Some(best) else Some(last)
  }

  /** `min_by` on `min_level`: a detail whose `min_level` no other detail is below. */
  function MinByMinLevel(details: seq<PokemonEncounterDetail>): (r: Option<PokemonEncounterDetail>)
    ensures r.None? <==> details == []
    ensures r.Some? ==> r.value in details &&
                        forall k :: 0 <= k < |details| ==> !OptionLess(details[k].minLevel, r.value.minLevel)
    decreases |details|
  {
    if details == [] then None
    else if |details| == 1 then Some(details[0])
    else
      var init := details[..|details| - 1];
      var last := details[|details| - 1];
      var best := MinByMinLevel(init).value;
      assert forall k :: 0 <= k < |init| ==> init[k] == details[k];
      if OptionLess(last.minLevel, best.minLevel) then Some(last) else Some(best)
  }

  /** The upper end of the level range, 0 when no detail has a `max_level`. */
  function MaxLevel(vd: PokemonEncounterVersionDetail): int
  {
    match vd.encounterDetails
    case None => 0
    case Some(details) =>
      match MaxByMaxLevel(details)
      case None => 0
      case Some(d) => d.maxLevel.GetOr(0) as int
  }

  /** The lower end of the level range, 0 when some detail has no `min_level`. */
  function MinLevel(vd: PokemonEncounterVersionDetail): int
  {
    match vd.encounterDetails
    case None => 0
    case Some(details) =>
      match MinByMinLevel(details)
      case None => 0
      case Some(d) => d.minLevel.GetOr(0) as int
  }

  /**
   * The upper end is the largest `max_level` present, and 0 when there are
   * no details or none has a `max_level`.
   */
  lemma MaxLevelSpec(vd: PokemonEncounterVersionDetail)
    ensures var ds := vd.encounterDetails.GetOr([]);
            ((forall k :: 0 <= k < |ds| ==> ds[k].maxLevel.None?) ==> MaxLevel(vd) == 0) &&
            ((exists k :: 0 <= k < |ds| && ds[k].maxLevel.Some?) ==>
               (exists k :: 0 <= k < |ds| && ds[k].maxLevel == Some(MaxLevel(vd) as i32)) &&
               forall k :: 0 <= k < |ds| && ds[k].maxLevel.Some? ==> ds[k].maxLevel.value as int <= MaxLevel(vd))
  {
    if vd.encounterDetails.Some? && vd.encounterDetails.value != [] {
      var ds := vd.encounterDetails.value;
      var best := MaxByMaxLevel(ds).value;
      if exists k :: 0 <= k < |ds| && ds[k].maxLevel.Some? {
        var k :| 0 <= k < |ds| && ds[k].maxLevel.Some?;
        assert !OptionLess(best.maxLevel, ds[k].maxLevel);
      }
    }
  }

  /**
   * The lower end is the smallest `min_level` when every detail has one; it
   * is 0 when there are no details or some detail has none (`None` is the
   * least value, and it renders as 0).
   */
  lemma MinLevelSpec(vd: PokemonEncounterVersionDetail)
    ensures var ds := vd.encounterDetails.GetOr([]);
            ((exists k :: 0 <= k < |ds| && ds[k].minLevel.None?) ==> MinLevel(vd) == 0) &&
            (ds == [] ==> MinLevel(vd) == 0) &&
            ((ds != [] && forall k :: 0 <= k < |ds| ==> ds[k].minLevel.Some?) ==>
               (exists k :: 0 <= k < |ds| && ds[k].minLevel == Some(MinLevel(vd) as i32)) &&
               forall k :: 0 <= k < |ds| ==> MinLevel(vd) <= ds[k].minLevel.value as int)
  {
    if vd.encounterDetails.Some? && vd.encounterDetails.value != [] {
      var ds := vd.encounterDetails.value;
      var best := MinByMinLevel(ds).value;
      if exists k :: 0 <= k < |ds| && ds[k].minLevel.None? {
        var k :| 0 <= k < |ds| && ds[k].minLevel.None?;
        assert !OptionLess(ds[k].minLevel, best.minLevel);
      }
    }
  }

  /** `get_renderable_levels`: "min - max". */
  function RenderableLevels(vd: PokemonEncounterVersionDetail): (r: string)
    ensures exists i, j :: r == i + " - " + j && ParseInt(i) == Some(MinLevel(vd)) &&
                           ParseInt(j) == Some(MaxLevel(vd))
  {
    IntRoundTrip(MinLevel(vd));
    IntRoundTrip(MaxLevel(vd));
    IntToString(MinLevel(vd)) + " - " + IntToString(MaxLevel(vd))
  }

  /** `get_renderable_location_area`: the formatted, padded area name, or `""`. */
  function RenderableLocationArea(e: PokemonEncounter): (r: string)
    ensures e.locationArea.None? ==> r == ""
    ensures e.locationArea.Some? ==> |r| == |NameOrStub(e.locationArea.value)| + 1 && r[0] == Padding &&
                                     r[1..] == CapitalizeWords(NameOrStub(e.locationArea.value), true)
  {
    match e.locationArea
    case None => ""
    case Some(area) =>
      SplitCapitalizeShape(NameOrStub(area));
      SplitCapitalizeIsCapitalizeWords(NameOrStub(area));
      AppendPadding(SplitCapitalize(NameOrStub(area)))
  }

  /** Whether a version detail's version is one of the `-`-separated parts of the group. */
  predicate VersionMatches(vd: PokemonEncounterVersionDetail, selectedVersionGroup: string)
  {
    vd.version.Some? && NameOrStub(vd.version.value) in Split(selectedVersionGroup, '-')
  }

  /** A version whose name contains `-` never matches, as the parts have none. */
  lemma HyphenatedVersionNeverMatches(vd: PokemonEncounterVersionDetail, selectedVersionGroup: string)
    requires vd.version.Some? && '-' in NameOrStub(vd.version.value)
    ensures !VersionMatches(vd, selectedVersionGroup)
  {
  }

  /** The version details of the selected version group, in source order. */
  function SelectedVersionDetails(e: PokemonEncounter, selectedVersionGroup: string)
    : seq<PokemonEncounterVersionDetail>
  {
    match e.versionDetails
    case None => []
    case Some(details) => Filter(details, vd => VersionMatches(vd, selectedVersionGroup))
  }

  /**
   * One table row: location, methods, version, chance, levels. The methods
   * cell is what the `get_renderable_methods` loop computes
   * (`RenderableMethods`), the chance cell reads back as the chance, and
   * the levels cell holds the level range of `MinLevelSpec`/`MaxLevelSpec`.
   */
  function VersionDetailRow(location: string, vd: PokemonEncounterVersionDetail): (row: Row)
    ensures |row| == 5 && row[0] == location
    ensures row[1] == MethodsText(vd)
    ensures vd.version.None? ==> row[2] == ""
    ensures vd.version.Some? ==> row[2] == CapitalizeWords(NameOrStub(vd.version.value), true)
    ensures vd.maxChance.None? <==> row[3] == ""
    ensures vd.maxChance.Some? ==> ParseInt(row[3]) == Some(vd.maxChance.value as int)
    ensures exists i, j :: row[4] == i + " - " + j && ParseInt(i) == Some(MinLevel(vd)) &&
                           ParseInt(j) == Some(MaxLevel(vd))
  {
    [location, MethodsText(vd), RenderableVersion(vd), RenderableMaxChance(vd), RenderableLevels(vd)]
  }

  /** Every version detail names its version; the source unwraps it. */
  predicate VersionsPresent(e: PokemonEncounter)
  {
    e.versionDetails.Some? ==> forall k :: 0 <= k < |e.versionDetails.value| ==>
                                 e.versionDetails.value[k].version.Some?
  }

  /**
   * `get_renderable_as_rows`: one five-cell row per version detail whose
   * version is in the selected group, in source order; no rows without
   * version details.
   */
  function RenderableAsRows(e: PokemonEncounter, selectedVersionGroup: string): (rows: seq<Row>)
    requires VersionsPresent(e)
    ensures e.versionDetails.None? ==> rows == []
    ensures |rows| <= |e.versionDetails.GetOr([])|
    ensures var kept := SelectedVersionDetails(e, selectedVersionGroup);
            |rows| == |kept| &&
            forall k :: 0 <= k < |rows| ==> VersionMatches(kept[k], selectedVersionGroup) &&
                                            kept[k] in e.versionDetails.value &&
                                            rows[k] == VersionDetailRow(RenderableLocationArea(e), kept[k])
  {
    var location := RenderableLocationArea(e);
    Map(SelectedVersionDetails(e, selectedVersionGroup), vd => VersionDetailRow(location, vd))
  }

  /**
   * Filtering keeps source order: the rows of two runs of version details
   * are the rows of the first followed by the rows of the second.
   */
  lemma RowsKeepSourceOrder(area: Option<NamedApiResource>, a: seq<PokemonEncounterVersionDetail>,
                            b: seq<PokemonEncounterVersionDetail>, selectedVersionGroup: string)
    requires VersionsPresent(PokemonEncounter(area, Some(a + b)))
    ensures VersionsPresent(PokemonEncounter(area, Some(a))) && VersionsPresent(PokemonEncounter(area, Some(b)))
    ensures RenderableAsRows(PokemonEncounter(area, Some(a + b)), selectedVersionGroup) ==
            RenderableAsRows(PokemonEncounter(area, Some(a)), selectedVersionGroup) +
            RenderableAsRows(PokemonEncounter(area, Some(b)), selectedVersionGroup)
  {
    assert forall k :: 0 <= k < |a| ==> (a + b)[k] == a[k];
    assert forall k :: 0 <= k < |b| ==> (a + b)[|a| + k] == b[k];
    FilterAppend(a, b, vd => VersionMatches(vd, selectedVersionGroup));
    var location := RenderableLocationArea(PokemonEncounter(area, None));
    MapAppend(Filter(a, vd => VersionMatches(vd, selectedVersionGroup)),
              Filter(b, vd => VersionMatches(vd, selectedVersionGroup)),
              vd => VersionDetailRow(location, vd));
  }

  /** A version detail that matches gives a row; one that does not, none. */
  lemma SingleDetailRows(area: Option<NamedApiResource>, vd: PokemonEncounterVersionDetail,
                         selectedVersionGroup: string)
    requires vd.version.Some?
    ensures var e := PokemonEncounter(area, Some([vd]));
            VersionsPresent(e) &&
            RenderableAsRows(e, selectedVersionGroup) ==
              if VersionMatches(vd, selectedVersionGroup) then [VersionDetailRow(RenderableLocationArea(e), vd)] else []
  {
  }

  function Walk(): NamedApiResource { NamedApiResource(Some("walk"), None) }

  /** The version detail of the tests: version "y", walk (1-10), headbutt (20-40), walk (11-35). */
  function StubVersionDetail(): PokemonEncounterVersionDetail
  {
    PokemonEncounterVersionDetail(
      Some(10), Some(NamedApiResource(Some("y"), None)),
      Some([PokemonEncounterDetail(Some(50), Some(10), Some(1), Some(Walk())),
            PokemonEncounterDetail(Some(50), Some(40), Some(20), Some(NamedApiResource(Some("headbutt"), None))),
            PokemonEncounterDetail(Some(50), Some(35), Some(11), Some(Walk()))]))
  }

  /** A repeated method is listed once, at its first place. */
  lemma MethodsOfStub()
    ensures MethodsText(StubVersionDetail()) == "Walk, Headbutt"
  {
    MethodNamesOfStub();
    DedupOfStub();
    JoinOfStub();
  }

  lemma MethodNamesOfStub()
    ensures MethodNames(StubVersionDetail().encounterDetails.value) == ["Walk", "Headbutt", "Walk"]
  {
    var ds := StubVersionDetail().encounterDetails.value;
    MethodNamesOfThree(ds[0], ds[1], ds[2]);
    assert ds == [ds[0], ds[1], ds[2]];
    MethodNameOfStub(ds[0]);
    MethodNameOfStub(ds[1]);
    MethodNameOfStub(ds[2]);
  }

  lemma MethodNamesOfThree(d0: PokemonEncounterDetail, d1: PokemonEncounterDetail, d2: PokemonEncounterDetail)
    requires d0.encounterMethod.Some? && d1.encounterMethod.Some? && d2.encounterMethod.Some?
    ensures MethodNames([d0, d1, d2]) == [MethodName(d0), MethodName(d1), MethodName(d2)]
  {
    assert [d0][..0] == [];
    assert MethodNames([d0]) == [MethodName(d0)];
    assert [d0, d1][..1] == [d0];
    assert MethodNames([d0, d1]) == [MethodName(d0), MethodName(d1)];
    assert [d0, d1, d2][..2] == [d0, d1];
  }

  lemma JoinOfStub()
    ensures Join(["Walk", "Headbutt"], ", ") == "Walk, Headbutt"
  {
    var parts: seq<string> := ["Walk", "Headbutt"];
    assert Join(parts[1..], ", ") == "Headbutt";
  }

  lemma MethodNameOfStub(d: PokemonEncounterDetail)
    requires d.encounterMethod == Some(Walk()) || d.encounterMethod == Some(NamedApiResource(Some("headbutt"), None))
    ensures MethodName(d) == if d.encounterMethod == Some(Walk()) then "Walk" else "Headbutt"
  {
    if d.encounterMethod == Some(Walk()) {
      assert MethodName(d) == SplitCapitalize("walk");
      SplitCapitalizeWalk();
    } else {
      assert MethodName(d) == SplitCapitalize("headbutt");
      SplitCapitalizeHeadbutt();
    }
  }

  lemma SplitCapitalizeWalk()
    ensures SplitCapitalize("walk") == "Walk"
  {
    SplitCapitalizeWithoutDash("walk");
    UppercaseMethods();
  }

  lemma SplitCapitalizeHeadbutt()
    ensures SplitCapitalize("headbutt") == "Headbutt"
  {
    SplitCapitalizeWithoutDash("headbutt");
    UppercaseMethods();
  }

  lemma UppercaseMethods()
    ensures UppercaseFirstLetter("walk") == "Walk" && UppercaseFirstLetter("headbutt") == "Headbutt"
  {
  }

  lemma DedupOfStub()
    ensures Dedup(["Walk", "Headbutt", "Walk"]) == ["Walk", "Headbutt"]
  {
    var s: seq<string> := ["Walk", "Headbutt", "Walk"];
    assert s[..2][..1] == ["Walk"];
    assert Dedup(s[..2][..1]) == ["Walk"];
    assert Dedup(s[..2]) == ["Walk", "Headbutt"];
  }

  /** The lowest `min_level` and the highest `max_level` of the tests' details. */
  lemma LevelsOfStub()
    ensures RenderableLevels(StubVersionDetail()) == "1 - 40"
  {
    MinLevelOfStub();
    MaxLevelOfStub();
    LevelDigits();
  }

  lemma MinLevelOfStub()
    ensures MinLevel(StubVersionDetail()) == 1
  {
    var vd := StubVersionDetail();
    MinLevelSpec(vd);
    assert vd.encounterDetails.value[0].minLevel == Some(1);
  }

  lemma MaxLevelOfStub()
    ensures MaxLevel(StubVersionDetail()) == 40
  {
    var vd := StubVersionDetail();
    MaxLevelSpec(vd);
    assert vd.encounterDetails.value[1].maxLevel == Some(40);
  }

  lemma LevelDigits()
    ensures IntToString(1) + " - " + IntToString(40) == "1 - 40"
  {
    assert NatToString(40) == NatToString(4) + "0";
  }

  /** The group "x-y" holds both of its versions, so the tests' version "y" is shown. */
  lemma StubMatchesGroup()
    ensures VersionMatches(StubVersionDetail(), "x-y")
  {
    SplitOfGroup();
  }

  lemma SplitOfGroup()
    ensures Split("x-y", '-') == ["x", "y"]
  {
    SplitOfDashY();
    SplitStep('x', "-y", '-');
    assert ['x'] + "-y" == "x-y";
    assert ['x'] + "" == "x";
  }

  lemma SplitOfDashY()
    ensures Split("-y", '-') == ["", "y"]
  {
    SplitOfY();
    SplitStep('-', "y", '-');
    assert ['-'] + "y" == "-y";
  }

  lemma SplitOfY()
    ensures Split("y", '-') == ["y"]
  {
    assert Split("", '-') == [""];
    SplitStep('y', "", '-');
    assert ['y'] + "" == "y";
  }

  lemma SplitStep(c: char, rest: string, sep: char)
    ensures Split([c] + rest, sep) == if c == sep then [""] + Split(rest, sep)
                                      else [[c] + Split(rest, sep)[0]] + Split(rest, sep)[1..]
  {
    assert ([c] + rest)[1..] == rest;
  }

  /** The version and chance cells of the tests' version detail. */
  lemma VersionAndChanceOfStub()
    ensures RenderableVersion(StubVersionDetail()) == "Y"
    ensures RenderableMaxChance(StubVersionDetail()) == "10"
  {
    SplitCapitalizeWithoutDash("y");
    assert UppercaseFirstLetter("y") == "Y";
    assert NatToString(10) == NatToString(1) + "0";
  }
}
