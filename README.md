# Reptile handbook: local species overlay

A Dafny model of the part of the reptile handbook web app that holds
user-authored species profiles:

- the **local species store** (`useLocalSpecies`): an ordered list of
  profiles, loaded once from browser storage at start-up and written back in
  full under the key `reptile-handbook-species-v1` after every add, update and
  delete. Clearing empties the list and removes the key.
  It is modelled as the class `LocalSpecies.LocalSpeciesStore`. The pure list
  updaters it applies are upsert by id, patch by id and filter by id. They live
  in module `SpeciesList`.
- the **combined list** the species page shows (`Combined.CombinedSpecies`):
  the built-in profiles followed by the local ones;
- the **species form's submit handler** (`SpeciesForm`): it validates the
  required fields, builds a profile from the raw text inputs (trimming,
  comma-list parsing, optional sub-records), hands it to the store's add
  operation, shows a message and clears only the identity fields.

Module layout: `Wrappers` (Option, Result), `Species` (the profile record of
`src/types/species.ts`), `Text` (JavaScript `trim`, `split`, the
`.map(trim).filter(Boolean)` list idiom, `Number(x) || 0`), `SpeciesList`,
`LocalSpecies`, `Combined`, `SpeciesForm`.

Browser storage is a `map<string, Slot>`. The store touches only its own key.
JSON encoding is abstracted: a written list is held as `Serialized(list)`,
and a later load gives that list back. An empty string and text that fails to
parse are the two other values the load can meet; both leave the list empty.
A write or removal that throws is caught in the source. Here that becomes a
`written`/`removed` flag. When it is false, storage is unchanged but the
in-memory list still changes.

The current time (`new Date().toISOString()`) is a `now` parameter.

Three behaviours of the code worth noting:

- The combined list is plain concatenation. It does no de-duplication, and a
  local record with a built-in id does not replace the built-in one: both are
  shown (`Combined.CombinedKeepsBoth`).
- The store itself does not reject an empty id. Only the form does.
- `updateSpecies` may rewrite a record's id through the patch. This can break
  id uniqueness (`SpeciesList.UpdateMayDuplicateIds`).

## Model

| member | source | states |
|---|---|---|
| `SpeciesList.FindIndex` | src/hooks/useLocalSpecies.ts:44 | the result is -1 exactly when no record has the id; otherwise it is the first index holding that id |
| `SpeciesList.Upsert` | src/hooks/useLocalSpecies.ts:44-50 | the added record is always in the result; the length grows by one exactly when no record had its id; the rest of its behaviour is stated by `SpeciesList.UpsertAppends`, `SpeciesList.UpsertReplacesFirst`, `SpeciesList.UpsertIds`, `SpeciesList.UpsertKeepsUnique` and `SpeciesList.UpsertIdempotent` |
| `SpeciesList.UpsertAppends` | src/hooks/useLocalSpecies.ts:44-50 | with no record of that id, add appends: length grows by one and the old records form an unchanged prefix |
| `SpeciesList.UpsertReplacesFirst` | src/hooks/useLocalSpecies.ts:44-48 | with a record of that id, only the first such index changes; it takes every field of the new record, including its `updatedAt`; the length is unchanged |
| `SpeciesList.UpsertIds` | src/hooks/useLocalSpecies.ts:42-52 | after add, the record is in the list and the id set is the old one plus its id |
| `SpeciesList.UpsertKeepsUnique` | src/hooks/useLocalSpecies.ts:42-52 | add keeps ids pairwise distinct |
| `SpeciesList.UpsertIdempotent` | src/hooks/useLocalSpecies.ts:44-50 | adding the same record twice gives the same list as adding it once |
| `SpeciesList.ApplyPatch` | src/hooks/useLocalSpecies.ts:58 | the patched record has `updatedAt = now` whatever the patch says, and takes the patch's id and `createdAt` when the patch gives them |
| `SpeciesList.EmptyPatchRestamps` | src/hooks/useLocalSpecies.ts:58 | a patch with no properties only restamps `updatedAt` |
| `SpeciesList.ApplyPatchIdempotent` | src/hooks/useLocalSpecies.ts:58 | applying one patch twice at the same time equals applying it once |
| `SpeciesList.UpdateMatching` | src/hooks/useLocalSpecies.ts:55-61 | update keeps the length; records with that id get the patch plus `updatedAt = now`; all other records are untouched |
| `SpeciesList.UpdateMissingIsNoOp` | src/hooks/useLocalSpecies.ts:55-61 | when no record has the id, update leaves the list unchanged |
| `SpeciesList.UpdateStampsNow` | src/hooks/useLocalSpecies.ts:58 | every matching record ends with `updatedAt = now` |
| `SpeciesList.UpdateKeepsIds` | src/hooks/useLocalSpecies.ts:55-61 | a patch that leaves the id alone keeps the id set and id uniqueness |
| `SpeciesList.UpdateMayDuplicateIds` | src/hooks/useLocalSpecies.ts:58 | a patch carrying another record's id leaves two records with one id |
| `SpeciesList.RemoveId` | src/hooks/useLocalSpecies.ts:64-66 | a record is kept after delete exactly when it was in the list and has a different id |
| `SpeciesList.RemoveLeavesNone` | src/hooks/useLocalSpecies.ts:65 | after delete, no record has the id |
| `SpeciesList.RemoveKeepsOrder` | src/hooks/useLocalSpecies.ts:65 | the remaining records are a subsequence of the old list, so their relative order is kept |
| `SpeciesList.RemoveAppend` | src/hooks/useLocalSpecies.ts:65 | deleting from a concatenation equals concatenating the two deletes |
| `SpeciesList.RemoveMissingIsNoOp` | src/hooks/useLocalSpecies.ts:64-66 | deleting an id no record has leaves the list unchanged |
| `SpeciesList.RemoveIdempotent` | src/hooks/useLocalSpecies.ts:64-66 | deleting twice equals deleting once |
| `SpeciesList.RemoveIdsSet` | src/hooks/useLocalSpecies.ts:64-66 | delete removes exactly that id from the id set |
| `SpeciesList.RemoveKeepsUnique` | src/hooks/useLocalSpecies.ts:64-66 | delete keeps ids pairwise distinct |
| `SpeciesList.AddAddDeleteScenario` | src/hooks/useLocalSpecies.ts:42-66 | adding `a`, then `b`, then deleting `a` leaves exactly `[b]` |
| `LocalSpecies.Restore` | src/hooks/useLocalSpecies.ts:13-21 | a non-empty loaded list can only come from a stored value that parsed as a list; `LocalSpecies.RestoreUnreadable` and `LocalSpecies.RestoreWritten` state the other outcomes |
| `LocalSpecies.RestoreUnreadable` | src/hooks/useLocalSpecies.ts:13-21 | an absent key, an empty stored string or text that fails to parse all load as the empty list |
| `LocalSpecies.RestoreWritten` | src/hooks/useLocalSpecies.ts:31 | a list written under the key loads back unchanged |
| `LocalSpecies.ClearedAndEmptiedReloadAlike` | src/hooks/useLocalSpecies.ts:69-78 | after clear the key is absent, not `[]`; both reload as the empty list |
| `LocalSpecies.LocalSpeciesStore.constructor` | src/hooks/useLocalSpecies.ts:7-22 | the one-shot load: the list is the stored list if one parses, else empty; storage is not changed; a reload agrees with the list |
| `LocalSpecies.LocalSpeciesStore.Persist` | src/hooks/useLocalSpecies.ts:25-38 | the new list always becomes the in-memory list; it is written under the key only if the write succeeds; other keys are untouched |
| `LocalSpecies.LocalSpeciesStore.AddSpecies` | src/hooks/useLocalSpecies.ts:42-52 | the list becomes the upsert of the record and is written in full; id uniqueness is preserved; the id set gains the record's id |
| `LocalSpecies.LocalSpeciesStore.UpdateSpecies` | src/hooks/useLocalSpecies.ts:55-61 | the list becomes the patched list and is written in full; uniqueness is kept when the patch leaves ids alone |
| `LocalSpecies.LocalSpeciesStore.DeleteSpecies` | src/hooks/useLocalSpecies.ts:64-66 | the list becomes the filtered list and is written in full; no record keeps the id; uniqueness is preserved |
| `LocalSpecies.LocalSpeciesStore.ClearSpecies` | src/hooks/useLocalSpecies.ts:69-78 | the list becomes empty and the key is removed; a failed removal is swallowed and storage is unchanged |
| `Combined.CombinedSpecies` | src/App.tsx:37-40 | the combined length is the sum of the two lengths: first the built-in list in order, then the local list in order |
| `Combined.CombinedIds` | src/App.tsx:38 | the combined ids are the built-in ids together with the local ids |
| `Combined.CombinedKeepsBoth` | src/App.tsx:38 | a local record sharing an id with a built-in one appears beside it; the combined ids are then not unique |
| `Combined.CombinedAfterDelete` | src/App.tsx:38 | after a local delete, the id appears in the combined list exactly when a built-in record has it |
| `Text.TrimStart` | src/components/SpeciesForm.tsx:65 | the result is a suffix; every dropped character is a space; the result does not start with a space |
| `Text.TrimEnd` | src/components/SpeciesForm.tsx:65 | the result is a prefix; every dropped character is a space; the result does not end with a space |
| `Text.Trim` | src/components/SpeciesForm.tsx:57 | trim gives an empty string exactly when the input is all spaces; otherwise the result starts and ends with a non-space and contains only characters of the input |
| `Text.TrimIdempotent` | src/components/SpeciesForm.tsx:71 | trimming twice equals trimming once |
| `Text.Split` | src/components/SpeciesForm.tsx:70 | split yields at least one piece, and no piece contains the separator |
| `Text.JoinSplit` | src/components/SpeciesForm.tsx:70 | joining the pieces of a split with the separator gives back the text |
| `Text.SplitJoin` | src/components/SpeciesForm.tsx:70 | splitting the join of separator-free pieces gives back the pieces |
| `Text.TrimEach` | src/components/SpeciesForm.tsx:71 | each element is the trim of the element at the same index |
| `Text.DropEmpty` | src/components/SpeciesForm.tsx:72 | the result holds exactly the non-empty inputs, and a list without empty strings is unchanged; order and duplicates are fixed by `Text.DropEmptyAppend` |
| `Text.DropEmptyAppend` | src/components/SpeciesForm.tsx:72 | dropping empties distributes over concatenation, so the kept strings keep their order and their repetitions |
| `Text.TrimEachAppend` | src/components/SpeciesForm.tsx:71 | trimming each element distributes over concatenation |
| `Text.JoinAppend` | src/components/SpeciesForm.tsx:70 | joining two piece lists puts exactly one separator between their joins |
| `Text.CommaList` | src/components/SpeciesForm.tsx:69-72 | the parsed list has no more items than comma-separated pieces, and every item is clean (non-empty, trimmed, comma-free); its contents are stated by `Text.CommaListKeeps` and `Text.CommaListFrom`, its order by `Text.CommaListJoinPair` |
| `Text.CommaListJoinPair` | src/components/SpeciesForm.tsx:69-72 | parsing `a + "," + b` gives the parse of `a` followed by the parse of `b`: items keep their order and duplicates |
| `Text.CommaListClean` | src/components/SpeciesForm.tsx:69-72 | every parsed item is non-empty, equal to its own trim and comma-free |
| `Text.CommaListKeeps` | src/components/SpeciesForm.tsx:69-72 | every non-blank comma-separated piece appears, trimmed, in the parsed list |
| `Text.CommaListFrom` | src/components/SpeciesForm.tsx:69-72 | every parsed item is the trim of some comma-separated piece |
| `Text.CommaListJoin` | src/components/SpeciesForm.tsx:69-72 | parsing a comma-joined list of clean items gives back the items |
| `Text.ParseNum` | src/components/SpeciesForm.tsx:78-85 | blank text reads as 0, like the fallback to 0 after `Number(x)` |
| `Text.NatText` | src/components/SpeciesForm.tsx:78-85 | the decimal text of a natural number is a non-empty run of digits whose value is that number |
| `Text.ParseNumDigits` | src/components/SpeciesForm.tsx:78-85 | text that trims to the digits of `n` reads as `n` |
| `Text.ParseNumNegated` | src/components/SpeciesForm.tsx:78-85 | text that trims to a minus sign and the digits of `n` reads as `-n` |
| `Text.ParseNumNatText` | src/components/SpeciesForm.tsx:78-85 | round trip: the decimal text of every natural number reads back as that number, also with one space on each side, and with a leading minus sign reads back as its negation |
| `Text.ParseNumNonNumeric` | src/components/SpeciesForm.tsx:78-85 | trimmed text holding a character that is neither a digit nor a sign reads as 0 |
| `Text.CommaListBlank` | src/components/SpeciesForm.tsx:125-128 | blank text parses to the empty list |
| `SpeciesForm.OptionalText` | src/components/SpeciesForm.tsx:104 | a kept note is never blank and is already trimmed (trimming it again changes nothing); the note is absent exactly when the input is blank |
| `SpeciesForm.MissingRequired` | src/components/SpeciesForm.tsx:57 | an empty raw id, common name or scientific name, or an id of a single space, fails validation; `SpeciesForm.BuildProfile` states that validation fails exactly on this predicate |
| `SpeciesForm.BuildProfile` | src/components/SpeciesForm.tsx:57-145 | no profile is built, and the required-fields message is returned, exactly when a trimmed id, common name or scientific name is empty; on success these three are the trimmed inputs and `createdAt == updatedAt == now` |
| `SpeciesForm.BuildListsClean` | src/components/SpeciesForm.tsx:69-142 | every item of origin, enrichments, rehab common issues and tags is non-empty, trimmed and comma-free |
| `SpeciesForm.BuildLifespan` | src/components/SpeciesForm.tsx:81-87 | lifespan is present exactly when raw `lifeMin` or `lifeMax` is non-empty, tested untrimmed; it then holds the two parsed numbers |
| `SpeciesForm.BuildBlankLifespanIsZero` | src/components/SpeciesForm.tsx:81-87 | any lifespan input that is non-empty but blank once trimmed, with the other blank too, still yields a lifespan of 0 to 0 years, because the presence test looks at the untrimmed text |
| `SpeciesForm.BuildBreeding` | src/components/SpeciesForm.tsx:106-118 | breeding is present exactly when one of the four raw breeding inputs is non-empty; its difficulty is then the care level |
| `SpeciesForm.BuildNotes` | src/components/SpeciesForm.tsx:104-116 | diet notes and breeding notes are absent exactly when their trimmed input is empty |
| `SpeciesForm.BuildRehabBlank` | src/components/SpeciesForm.tsx:119-138 | rehab is present; with blank rehab inputs it is the all-empty record |
| `SpeciesForm.ClearIdentity` | src/components/SpeciesForm.tsx:150-153 | id, common name and scientific name become empty, and every other field keeps its value |
| `SpeciesForm.ResubmitAfterResetFails` | src/components/SpeciesForm.tsx:57-60 | submitting straight after the reset is refused with the required-fields message |
| `SpeciesForm.SpeciesFormComponent.constructor` | src/components/SpeciesForm.tsx:9-51 | the form starts with empty texts, snake, beginner, not venomous, not dangerous, nocturnal, docile, and no message |
| `SpeciesForm.SpeciesFormComponent.HandleSubmit` | src/components/SpeciesForm.tsx:53-154 | with a blank required field, only the message changes, to the required-fields text; otherwise the built profile is added to the store (upsert plus full write), the saved message names it, and only the identity fields are cleared |

## Left out

- React machinery is not modelled: `useState`, `useEffect`, `useMemo` and the scheduling of state updaters. Each store operation takes effect at once, and the one-shot load happens in the store's constructor.
- The `typeof window === 'undefined'` guards (rendering without a browser) are not modelled. A missing window skips the write, like a failed write, and the flag covers both.
- `console.error` logging is left out. A caught exception only leaves storage as it was.
- JSON encoding and decoding are abstracted away. Stored JSON that parses to something other than a list of profiles (for instance `null`) is not modelled. The source would take such a value as its state.
- `LocalSpecies.LocalSpeciesStore.AddSpecies`: the record spread `{ ...old, ...sp }` is modelled as `sp` replacing the record. An optional property that `sp` omits entirely, rather than setting it to `undefined`, would keep the old record's value in the source. Optional properties are `Option` here, which cannot tell those two cases apart. Every profile the form builds sets all of its properties.
- `Text.ParseNum`: `Number(x) || 0` is modelled for integer text only (optional sign and decimal digits after trimming). Fractions, exponents, hexadecimal and `Infinity` are read as 0. Numbers are `int`, not floating point. The value for text made only of digits and signs placed elsewhere (`1-2`, `--3`, a lone `-`) is fixed by the definition alone.
- `SpeciesList.ApplyPatch`: a `Partial<SpeciesProfile>` may set a required property to `undefined` (say `{ commonName: undefined }`), which the spread copies; `Patch` uses `Option` for required properties and cannot express that. No caller of `updateSpecies` exists in the application, so the gap has no effect there.
- `new Date().toISOString()` is a `now` parameter.
- SpeciesList.UpdateMatching: the clock is read once per update and every matching record gets the same `now`. The source reads it inside the `map` callback, once per matching record, so two records sharing the id could receive different `updatedAt` values.
- The JSX rendering of the form, the page shell and routing in `src/App.tsx`, and the card, list and page components are presentation and are not modelled.
- The built-in dataset `src/data/species` is not part of this model. It is an arbitrary list parameter of the combined view.
