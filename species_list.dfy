/**
 * The pure list updaters of the local species store
 * (src/hooks/useLocalSpecies.ts): the `findIndex` + slot-replace of
 * `addSpecies`, the `map` of `updateSpecies` and the `filter` of
 * `deleteSpecies`.
 */
module SpeciesList {
  import opened Wrappers
  import opened Species

  /** No two records share an id. */
  predicate UniqueIds(s: seq<Profile>) {
    forall i, j :: 0 <= i < j < |s| ==> s[i].id != s[j].id
  }

  /** Some record carries `id`. */
  predicate HasId(s: seq<Profile>, id: string) {
    exists j :: 0 <= j < |s| && s[j].id == id
  }

  /** The set of ids of the records. */
  function Ids(s: seq<Profile>): set<string> {
    set j | 0 <= j < |s| :: s[j].id
  }

  /** `s.findIndex((p) => p.id === id)`: the first index with that id, or -1. */
  function FindIndex(s: seq<Profile>, id: string): (r: int)
    ensures -1 <= r < |s|
    ensures r == -1 <==> !HasId(s, id)
    ensures 0 <= r ==> s[r].id == id && forall j :: 0 <= j < r ==> s[j].id != id
  {
    if |s| == 0 then -1
    else if s[0].id == id then 0
    else
      var k := FindIndex(s[1..], id);
      assert forall j :: 0 < j < |s| ==> s[j] == s[1..][j - 1];
      if k == -1 then -1 else k + 1
  }

  /**
   * The updater of `addSpecies`: replace the first record with `sp`'s id by
   * `sp` (spreading a complete profile over the old record keeps none of the
   * old fields), or append `sp` when no record has that id.
   */
  function Upsert(s: seq<Profile>, sp: Profile): (r: seq<Profile>)
    ensures sp in r
    ensures |r| == if HasId(s, sp.id) then |s| else |s| + 1
  {
    var i := FindIndex(s, sp.id);
    if i != -1 then assert s[i := sp][i] == sp; s[i := sp] else s + [sp]
  }

  /** With no record of that id, upsert appends: one more record, the old ones unchanged. */
  lemma UpsertAppends(s: seq<Profile>, sp: Profile)
    requires !HasId(s, sp.id)
    ensures Upsert(s, sp) == s + [sp]
    ensures |Upsert(s, sp)| == |s| + 1 && Upsert(s, sp)[..|s|] == s
  {
  }

  /**
   * With a record of that id, only the first such index changes and it takes
   * every field of `sp`, including its `updatedAt`.
   */
  lemma UpsertReplacesFirst(s: seq<Profile>, sp: Profile, i: nat)
    requires i < |s| && s[i].id == sp.id
    requires forall j :: 0 <= j < i ==> s[j].id != sp.id
    ensures |Upsert(s, sp)| == |s|
    ensures Upsert(s, sp)[i] == sp && Upsert(s, sp)[i].updatedAt == sp.updatedAt
    ensures forall j :: 0 <= j < |s| && j != i ==> Upsert(s, sp)[j] == s[j]
  {
  }

  /** After an upsert the record is present and the ids are the old ones plus its id. */
  lemma UpsertIds(s: seq<Profile>, sp: Profile)
    ensures sp in Upsert(s, sp)
    ensures Ids(Upsert(s, sp)) == Ids(s) + {sp.id}
  {
    var r := Upsert(s, sp);
    var i := FindIndex(s, sp.id);
    if i == -1 {
      assert r[|s|] == sp;
      assert forall j :: 0 <= j < |s| ==> r[j] == s[j];
    } else {
      assert r[i] == sp;
      forall x | x in Ids(s) ensures x in Ids(r) {
        var j :| 0 <= j < |s| && s[j].id == x;
        assert r[j].id == x;
      }
    }
  }

  /** Upsert keeps the ids pairwise distinct. */
  lemma UpsertKeepsUnique(s: seq<Profile>, sp: Profile)
    requires UniqueIds(s)
    ensures UniqueIds(Upsert(s, sp))
  {
  }

  /** Upserting the same record twice gives the list upserting it once gives. */
  lemma UpsertIdempotent(s: seq<Profile>, sp: Profile)
    ensures Upsert(Upsert(s, sp), sp) == Upsert(s, sp)
  {
    var r := Upsert(s, sp);
    var i := FindIndex(s, sp.id);
    var k := FindIndex(r, sp.id);
    if i == -1 {
      assert r[|s|] == sp;
      assert forall j :: 0 <= j < |s| ==> r[j] == s[j];
      assert k == |s|;
    } else {
      assert r[i] == sp;
      assert forall j :: 0 <= j < i ==> r[j] == s[j];
      assert k == i;
    }
  }

  /**
   * `Partial<SpeciesProfile>`: `None` is a property the patch leaves out; for
   * the optional properties `Some(None)` sets them to `undefined`.
   */
  datatype Patch = Patch(
    id: Option<string>,
    commonName: Option<string>,
    scientificName: Option<string>,
    group: Option<SpeciesGroup>,
    origin: Option<seq<string>>,
    careLevel: Option<CareLevel>,
    venomous: Option<bool>,
    potentiallyDangerous: Option<bool>,
    activity: Option<Activity>,
    sizeCm: Option<Range>,
    lifespanYears: Option<Option<Range>>,
    temperament: Option<Temperament>,
    husbandry: Option<Husbandry>,
    diet: Option<Diet>,
    breeding: Option<Option<Breeding>>,
    rehab: Option<Option<Rehab>>,
    tags: Option<seq<string>>,
    createdAt: Option<string>,
    updatedAt: Option<string>)

  /** The patch that leaves every property out. */
  const EmptyPatch := Patch(None, None, None, None, None, None, None, None, None, None,
                            None, None, None, None, None, None, None, None, None)

  /** `{ ...sp, ...data, updatedAt: now }`. */
  function ApplyPatch(p: Profile, d: Patch, now: string): (r: Profile)
    ensures r.updatedAt == now
    ensures r.id == d.id.GetOr(p.id)
    ensures r.createdAt == d.createdAt.GetOr(p.createdAt)
  {
    Profile(
      d.id.GetOr(p.id),
      d.commonName.GetOr(p.commonName),
      d.scientificName.GetOr(p.scientificName),
      d.group.GetOr(p.group),
      d.origin.GetOr(p.origin),
      d.careLevel.GetOr(p.careLevel),
      d.venomous.GetOr(p.venomous),
      d.potentiallyDangerous.GetOr(p.potentiallyDangerous),
      d.activity.GetOr(p.activity),
      d.sizeCm.GetOr(p.sizeCm),
      d.lifespanYears.GetOr(p.lifespanYears),
      d.temperament.GetOr(p.temperament),
      d.husbandry.GetOr(p.husbandry),
      d.diet.GetOr(p.diet),
      d.breeding.GetOr(p.breeding),
      d.rehab.GetOr(p.rehab),
      d.tags.GetOr(p.tags),
      d.createdAt.GetOr(p.createdAt),
      now)
  }

  /** An empty patch only restamps `updatedAt`. */
  lemma EmptyPatchRestamps(p: Profile, now: string)
    ensures ApplyPatch(p, EmptyPatch, now) == p.(updatedAt := now)
  {
  }

  /** Applying the same patch twice at the same time is applying it once. */
  lemma ApplyPatchIdempotent(p: Profile, d: Patch, now: string)
    ensures ApplyPatch(ApplyPatch(p, d, now), d, now) == ApplyPatch(p, d, now)
  {
  }

  /**
   * The updater of `updateSpecies`: every record with `id` gets the patch and
   * `updatedAt = now`; the others are kept as they are.
   */
  function UpdateMatching(s: seq<Profile>, id: string, d: Patch, now: string): (r: seq<Profile>)
    ensures |r| == |s|
    ensures forall j :: 0 <= j < |s| && s[j].id == id ==> r[j] == ApplyPatch(s[j], d, now)
    ensures forall j :: 0 <= j < |s| && s[j].id != id ==> r[j] == s[j]
  {
    if s == [] then []
    else
      var head := if s[0].id == id then ApplyPatch(s[0], d, now) else s[0];
      var rest := UpdateMatching(s[1..], id, d, now);
      assert forall j :: 0 < j < |s| ==> s[j] == s[1..][j - 1];
      [head] + rest
  }

  /** When no record has the id, the update leaves the list unchanged. */
  lemma UpdateMissingIsNoOp(s: seq<Profile>, id: string, d: Patch, now: string)
    requires !HasId(s, id)
    ensures UpdateMatching(s, id, d, now) == s
  {
  }

  /** Matching records get `updatedAt = now`, whatever `updatedAt` the patch holds. */
  lemma UpdateStampsNow(s: seq<Profile>, id: string, d: Patch, now: string, j: nat)
    requires j < |s| && s[j].id == id
    ensures UpdateMatching(s, id, d, now)[j].updatedAt == now
  {
  }

  /**
   * A patch that does not move a record to another id keeps the ids, and so
   * keeps them pairwise distinct.
   */
  lemma UpdateKeepsIds(s: seq<Profile>, id: string, d: Patch, now: string)
    requires d.id.None? || d.id == Some(id)
    ensures Ids(UpdateMatching(s, id, d, now)) == Ids(s)
    ensures UniqueIds(s) ==> UniqueIds(UpdateMatching(s, id, d, now))
  {
  }

  /** A patch may rewrite the id, which can leave two records sharing one. */
  lemma UpdateMayDuplicateIds(a: Profile, b: Profile, now: string)
    requires a.id != b.id
    ensures UniqueIds([a, b])
    ensures !UniqueIds(UpdateMatching([a, b], a.id, EmptyPatch.(id := Some(b.id)), now))
  {
  }

  /** The updater of `deleteSpecies`: `s.filter((p) => p.id !== id)`. */
  function RemoveId(s: seq<Profile>, id: string): (r: seq<Profile>)
    ensures |r| <= |s|
    ensures forall x :: x in r <==> x in s && x.id != id
  {
    if s == [] then []
    else if s[0].id == id then RemoveId(s[1..], id)
    else [s[0]] + RemoveId(s[1..], id)
  }

  /** `r` is `s` with some records left out, the rest in their original order. */
  predicate IsSubsequence(r: seq<Profile>, s: seq<Profile>)
    decreases |s|
  {
    if r == [] then true
    else if s == [] then false
    else if r[0] == s[0] then IsSubsequence(r[1..], s[1..])
    else IsSubsequence(r, s[1..])
  }

  /** After a delete no record has the id. */
  lemma RemoveLeavesNone(s: seq<Profile>, id: string)
    ensures !HasId(RemoveId(s, id), id)
  {
  }

  /** Delete keeps the remaining records in their relative order. */
  lemma {:induction false} RemoveKeepsOrder(s: seq<Profile>, id: string)
    ensures IsSubsequence(RemoveId(s, id), s)
  {
    if s != [] {
      RemoveKeepsOrder(s[1..], id);
      var r := RemoveId(s, id);
      if s[0].id == id && r != [] {
        assert r[0] in r;
      }
    }
  }

  /** Delete distributes over concatenation, so it never reorders records. */
  lemma {:induction false} RemoveAppend(a: seq<Profile>, b: seq<Profile>, id: string)
    ensures RemoveId(a + b, id) == RemoveId(a, id) + RemoveId(b, id)
  {
    if a != [] {
      RemoveAppend(a[1..], b, id);
      assert (a + b)[1..] == a[1..] + b;
    } else {
      assert a + b == b;
    }
  }

  /** Deleting an id that no record has leaves the list unchanged. */
  lemma {:induction false} RemoveMissingIsNoOp(s: seq<Profile>, id: string)
    requires !HasId(s, id)
    ensures RemoveId(s, id) == s
  {
    if s != [] {
      forall j | 0 <= j < |s[1..]| ensures s[1..][j].id != id {
        assert s[1..][j] == s[j + 1];
      }
      RemoveMissingIsNoOp(s[1..], id);
      assert s == [s[0]] + s[1..];
    }
  }

  /** Deleting twice is deleting once. */
  lemma RemoveIdempotent(s: seq<Profile>, id: string)
    ensures RemoveId(RemoveId(s, id), id) == RemoveId(s, id)
  {
  }

  /** Delete removes exactly `id` from the set of ids. */
  lemma RemoveIdsSet(s: seq<Profile>, id: string)
    ensures Ids(RemoveId(s, id)) == Ids(s) - {id}
  {
  }

  /** Delete keeps the ids pairwise distinct. */
  lemma {:induction false} RemoveKeepsUnique(s: seq<Profile>, id: string)
    requires UniqueIds(s)
    ensures UniqueIds(RemoveId(s, id))
  {
    if s != [] {
      var tail := RemoveId(s[1..], id);
      RemoveKeepsUnique(s[1..], id);
      if s[0].id != id {
        var r := RemoveId(s, id);
        assert r == [s[0]] + tail;
        forall j | 0 <= j < |tail| ensures tail[j].id != s[0].id {
          assert tail[j] in tail;
          var i :| 0 <= i < |s[1..]| && s[1..][i] == tail[j];
          assert s[i + 1] == tail[j];
        }
        forall a, b | 0 <= a < b < |r| ensures r[a].id != r[b].id {
          assert r[b] == tail[b - 1];
          if a > 0 {
            assert r[a] == tail[a - 1];
          }
        }
      }
    }
  }

  /** Adding two records with distinct ids and deleting the first leaves only the second. */
  lemma AddAddDeleteScenario(a: Profile, b: Profile)
    requires a.id != b.id
    ensures RemoveId(Upsert(Upsert([], a), b), a.id) == [b]
  {
  }
}
