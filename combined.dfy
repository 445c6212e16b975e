/**
 * The combined list the species page shows (src/App.tsx): the built-in
 * profiles followed by the local ones, by plain concatenation.
 */
module Combined {
  import opened Species
  import opened SpeciesList

  /** `[...baseSpeciesList, ...localSpecies]`. */
  function CombinedSpecies(base: seq<Profile>, local: seq<Profile>): (r: seq<Profile>)
    ensures |r| == |base| + |local|
    ensures r[..|base|] == base
    ensures r[|base|..] == local
  {
    base + local
  }

  /** The combined ids are the built-in ids together with the local ids. */
  lemma CombinedIds(base: seq<Profile>, local: seq<Profile>)
    ensures Ids(CombinedSpecies(base, local)) == Ids(base) + Ids(local)
  {
  }

  /**
   * No de-duplication: a local record sharing its id with a built-in one
   * appears beside it, not in its place, and the combined ids repeat.
   */
  lemma CombinedKeepsBoth(base: seq<Profile>, local: seq<Profile>, i: nat, j: nat)
    requires i < |base| && j < |local| && base[i].id == local[j].id
    ensures CombinedSpecies(base, local)[i] == base[i]
    ensures CombinedSpecies(base, local)[|base| + j] == local[j]
    ensures !UniqueIds(CombinedSpecies(base, local))
  {
  }

  /** After a local delete, the id shows only if a built-in record has it. */
  lemma CombinedAfterDelete(base: seq<Profile>, local: seq<Profile>, id: string)
    ensures HasId(CombinedSpecies(base, RemoveId(local, id)), id) <==> HasId(base, id)
  {
  }
}
