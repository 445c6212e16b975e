/**
 * The species profile record of the handbook (src/types/species.ts).
 * Text fields are opaque strings; JavaScript numbers are modelled as `int`.
 */
module Species {
  import opened Wrappers

  datatype CareLevel = Beginner | Intermediate | Advanced

  datatype SpeciesGroup = Snake | Lizard | Amphibian | Spider | Scorpion | Other

  datatype Activity = Diurnal | Nocturnal | Crepuscular | Variable

  datatype Temperament = Docile | Nervous | Defensive | Aggressive

  /** A `{ min, max }` pair, used for body size and lifespan. */
  datatype Range = Range(min: int, max: int)

  datatype Husbandry = Husbandry(
    enclosure: string,
    temperature: string,
    humidity: string,
    lighting: string,
    substrate: string,
    enrichments: seq<string>)

  datatype Diet = Diet(
    preyType: string,
    scheduleJuvenile: string,
    scheduleAdult: string,
    notes: Option<string>)

  datatype Breeding = Breeding(
    difficulty: CareLevel,
    season: string,
    clutchSize: string,
    incubation: string,
    notes: Option<string>)

  datatype Rehab = Rehab(
    commonIssues: seq<string>,
    redFlags: string,
    quarantineProtocol: string,
    stressSigns: string)

  /** One species profile; `id` identifies it, timestamps are ISO-8601 text. */
  datatype Profile = Profile(
    id: string,
    commonName: string,
    scientificName: string,
    group: SpeciesGroup,
    origin: seq<string>,
    careLevel: CareLevel,
    venomous: bool,
    potentiallyDangerous: bool,
    activity: Activity,
    sizeCm: Range,
    lifespanYears: Option<Range>,
    temperament: Temperament,
    husbandry: Husbandry,
    diet: Diet,
    breeding: Option<Breeding>,
    rehab: Option<Rehab>,
    tags: seq<string>,
    createdAt: string,
    updatedAt: string)
}
