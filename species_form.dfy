/**
 * The submit handler of the species form (src/components/SpeciesForm.tsx):
 * required-field validation, building a profile from the raw inputs, handing
 * it to the store and the partial reset of the form.
 */
module SpeciesForm {
  import opened Wrappers
  import opened Species
  import opened Text
  import opened SpeciesList
  import opened LocalSpecies

  /** The form's state: every input as the user typed it. */
  datatype FormInput = FormInput(
    id: string,
    commonName: string,
    scientificName: string,
    group: SpeciesGroup,
    careLevel: CareLevel,
    venomous: bool,
    potentiallyDangerous: bool,
    activity: Activity,
    origin: string,
    sizeMin: string,
    sizeMax: string,
    lifeMin: string,
    lifeMax: string,
    temperament: Temperament,
    enclosure: string,
    temperature: string,
    humidity: string,
    lighting: string,
    substrate: string,
    enrichments: string,
    preyType: string,
    scheduleJuvenile: string,
    scheduleAdult: string,
    dietNotes: string,
    breedingSeason: string,
    breedingClutchSize: string,
    breedingIncubation: string,
    breedingNotes: string,
    rehabIssues: string,
    rehabRedFlags: string,
    rehabQuarantine: string,
    rehabStressSigns: string,
    tags: string)

  /** The form as first shown. */
  const InitialInput := FormInput(
    "", "", "", Snake, Beginner, false, false, Nocturnal,
    "", "", "", "", "", Docile,
    "", "", "", "", "", "",
    "", "", "", "",
    "", "", "", "",
    "", "", "", "",
    "")

  const RequiredMessage := "Id, svenskt namn och latinskt namn är obligatoriska."

  function SavedMessage(commonName: string): string {
    "Artprofil \"" + commonName + "\" sparad lokalt."
  }

  /** One of id, common name and scientific name is blank once trimmed. */
  predicate MissingRequired(f: FormInput)
    ensures f.id == "" || f.commonName == "" || f.scientificName == "" ==> MissingRequired(f)
    ensures f.id == " " ==> MissingRequired(f)
  {
    Trim(f.id) == "" || Trim(f.commonName) == "" || Trim(f.scientificName) == ""
  }

  /** `s.trim() || undefined`. */
  function OptionalText(s: string): (r: Option<string>)
    ensures r.None? <==> Trim(s) == ""
    ensures r.Some? ==> r.value == Trim(s)
    ensures r.Some? ==> r.value != "" && Trim(r.value) == r.value
  {
    TrimIdempotent(s);
    if Trim(s) == "" then None else Some(Trim(s))
  }

  /**
   * The profile `handleSubmit` builds at time `now`, or the message it shows
   * when a required field is blank.
   */
  function BuildProfile(f: FormInput, now: string): (r: Result<Profile, string>)
    ensures r.Failure? <==> MissingRequired(f)
    ensures r.Failure? ==> r.error == RequiredMessage
    ensures r.Success? ==>
              && r.value.id == Trim(f.id) != ""
              && r.value.commonName == Trim(f.commonName) != ""
              && r.value.scientificName == Trim(f.scientificName) != ""
              && r.value.createdAt == now && r.value.updatedAt == now
  {
    if MissingRequired(f) then Failure(RequiredMessage)
    else
      var lifespan :=
        if f.lifeMin != "" || f.lifeMax != ""
        then Some(Range(ParseNum(f.lifeMin), ParseNum(f.lifeMax)))
        else None;
      var breeding :=
        if f.breedingSeason != "" || f.breedingClutchSize != ""
           || f.breedingIncubation != "" || f.breedingNotes != ""
        then Some(Breeding(f.careLevel, Trim(f.breedingSeason), Trim(f.breedingClutchSize),
                           Trim(f.breedingIncubation), OptionalText(f.breedingNotes)))
        else None;
      var rehab :=
        if f.rehabIssues != "" || f.rehabRedFlags != ""
           || f.rehabQuarantine != "" || f.rehabStressSigns != ""
        then Rehab(CommaList(f.rehabIssues), Trim(f.rehabRedFlags),
                   Trim(f.rehabQuarantine), Trim(f.rehabStressSigns))
        else Rehab([], "", "", "");
      Success(Profile(
        Trim(f.id),
        Trim(f.commonName),
        Trim(f.scientificName),
        f.group,
        CommaList(f.origin),
        f.careLevel,
        f.venomous,
        f.potentiallyDangerous,
        f.activity,
        Range(ParseNum(f.sizeMin), ParseNum(f.sizeMax)),
        lifespan,
        f.temperament,
        Husbandry(Trim(f.enclosure), Trim(f.temperature), Trim(f.humidity),
                  Trim(f.lighting), Trim(f.substrate), CommaList(f.enrichments)),
        Diet(Trim(f.preyType), Trim(f.scheduleJuvenile), Trim(f.scheduleAdult),
             OptionalText(f.dietNotes)),
        breeding,
        Some(rehab),
        CommaList(f.tags),
        now,
        now))
  }

  /** Every item of origin, enrichments, common issues and tags is non-empty, trimmed and comma-free. */
  lemma BuildListsClean(f: FormInput, now: string)
    requires !MissingRequired(f)
    ensures var p := BuildProfile(f, now).value;
            && p.rehab.Some?
            && (forall x :: x in p.origin ==> IsCleanItem(x))
            && (forall x :: x in p.husbandry.enrichments ==> IsCleanItem(x))
            && (forall x :: x in p.rehab.value.commonIssues ==> IsCleanItem(x))
            && (forall x :: x in p.tags ==> IsCleanItem(x))
  {
    CommaListClean(f.origin);
    CommaListClean(f.enrichments);
    CommaListClean(f.rehabIssues);
    CommaListClean(f.tags);
  }

  /** The lifespan is present exactly when either raw lifespan input is non-empty (untrimmed). */
  lemma BuildLifespan(f: FormInput, now: string)
    requires !MissingRequired(f)
    ensures var p := BuildProfile(f, now).value;
            && (p.lifespanYears.Some? <==> f.lifeMin != "" || f.lifeMax != "")
            && (p.lifespanYears.Some? ==>
                  p.lifespanYears.value == Range(ParseNum(f.lifeMin), ParseNum(f.lifeMax)))
  {
  }

  /**
   * A lifespan input that is non-empty but blank once trimmed still yields a
   * lifespan, of zero years: the presence test looks at the untrimmed text.
   */
  lemma BuildBlankLifespanIsZero(f: FormInput, now: string)
    requires !MissingRequired(f)
    requires f.lifeMin != "" && Trim(f.lifeMin) == "" && Trim(f.lifeMax) == ""
    ensures BuildProfile(f, now).value.lifespanYears == Some(Range(0, 0))
  {
  }

  /**
   * Breeding is present exactly when one of the four raw breeding inputs is
   * non-empty, and then its difficulty is the care level.
   */
  lemma BuildBreeding(f: FormInput, now: string)
    requires !MissingRequired(f)
    ensures var p := BuildProfile(f, now).value;
            && (p.breeding.Some? <==>
                  f.breedingSeason != "" || f.breedingClutchSize != ""
                  || f.breedingIncubation != "" || f.breedingNotes != "")
            && (p.breeding.Some? ==> p.breeding.value.difficulty == p.careLevel == f.careLevel)
  {
  }

  /** The diet notes and breeding notes are absent exactly when their trimmed input is empty. */
  lemma BuildNotes(f: FormInput, now: string)
    requires !MissingRequired(f)
    ensures var p := BuildProfile(f, now).value;
            && (p.diet.notes.None? <==> Trim(f.dietNotes) == "")
            && (p.breeding.Some? ==> (p.breeding.value.notes.None? <==> Trim(f.breedingNotes) == ""))
  {
  }

  /**
   * Rehab is always present; when the four rehab inputs are blank (empty or
   * only spaces) it is the all-empty record.
   */
  lemma BuildRehabBlank(f: FormInput, now: string)
    requires !MissingRequired(f)
    requires Trim(f.rehabIssues) == "" && Trim(f.rehabRedFlags) == ""
    requires Trim(f.rehabQuarantine) == "" && Trim(f.rehabStressSigns) == ""
    ensures BuildProfile(f, now).value.rehab == Some(Rehab([], "", "", ""))
  {
    CommaListBlank(f.rehabIssues);
  }

  /** The reset after a successful submit: only id and the two names are emptied. */
  function ClearIdentity(f: FormInput): (r: FormInput)
    ensures r.id == "" && r.commonName == "" && r.scientificName == ""
    ensures r.(id := f.id, commonName := f.commonName, scientificName := f.scientificName) == f
  {
    f.(id := "", commonName := "", scientificName := "")
  }

  /** Submitting again straight after a reset is refused, so it adds nothing twice. */
  lemma ResubmitAfterResetFails(f: FormInput, now: string)
    ensures BuildProfile(ClearIdentity(f), now) == Failure(RequiredMessage)
  {
  }

  class SpeciesFormComponent {
    var input: FormInput
    /** The feedback line under the form; `None` shows nothing. */
    var message: Option<string>

    constructor ()
      ensures input == InitialInput && message == None
    {
      input := InitialInput;
      message := None;
    }

    /**
     * `handleSubmit` with `onCreate` wired to the store's `addSpecies`:
     * on blank required fields only the message changes; otherwise the built
     * profile is upserted, the saved message is shown and only the identity
     * fields are cleared.
     */
    method HandleSubmit(now: string, store: LocalSpeciesStore, written: bool)
      modifies this, store
      ensures BuildProfile(old(input), now).Failure? ==>
                && message == Some(RequiredMessage)
                && input == old(input)
                && store.localSpecies == old(store.localSpecies)
                && store.storage == old(store.storage)
      ensures BuildProfile(old(input), now).Success? ==>
                var p := BuildProfile(old(input), now).value;
                && store.localSpecies == Upsert(old(store.localSpecies), p)
                && store.storage == (if written then old(store.storage)[StorageKey := Serialized(store.localSpecies)]
                                     else old(store.storage))
                && message == Some(SavedMessage(p.commonName))
                && input == ClearIdentity(old(input))
    {
      message := None;
      var built := BuildProfile(input, now);
      match built
      case Failure(e) =>
        message := Some(e);
      case Success(p) =>
        store.AddSpecies(p, written);
        message := Some(SavedMessage(p.commonName));
        input := ClearIdentity(input);
    }
  }
}
