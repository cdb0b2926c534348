/** Reordering an account's collection profiles (`src/preferences/collections.rs`). */
module CollectionOrder {
  import opened Basics

  datatype Profile = Profile(id: string, settings: string)
  datatype OrderError = Incomplete | DuplicateIds | UnknownId

  /** One of the first `n` profiles has this id. */
  predicate Names(profiles: seq<Profile>, n: nat, id: string)
    requires n <= |profiles|
  {
    exists i | 0 <= i < n :: profiles[i].id == id
  }

  /** No two of the first `n` profiles share an id. */
  predicate DistinctProfiles(profiles: seq<Profile>, n: nat)
    requires n <= |profiles|
  {
    n == 0 || (DistinctProfiles(profiles, n - 1) && !Names(profiles, n - 1, profiles[n - 1].id))
  }

  predicate Distinct(ids: seq<string>, n: nat)
    requires n <= |ids|
  {
    n == 0 || (Distinct(ids, n - 1) && ids[n - 1] !in ids[..n - 1])
  }

  /** The ids of these profiles, each once, in some order. */
  predicate Rearranges(ids: seq<string>, profiles: seq<Profile>) {
    |ids| == |profiles| && Distinct(ids, |ids|) && forall id <- ids :: Names(profiles, |profiles|, id)
  }

  class Account {
    var profiles: seq<Profile>

    constructor (profiles: seq<Profile>)
      ensures this.profiles == profiles
    {
      this.profiles := profiles;
    }

    /** The new list has the given order and exactly the old profiles; anything but an order of
        distinct profiles is refused and changes nothing. A repeated id is refused as unknown:
        the duplicates the second message speaks of are among the profiles. */
    method ReorderProfiles(ids: seq<string>) returns (error: Option<OrderError>)
      modifies this
      ensures error.None? <==> DistinctProfiles(old(profiles), |old(profiles)|) && Rearranges(ids, old(profiles))
      ensures error == Some(Incomplete) <==> |ids| != |old(profiles)|
      ensures error == Some(DuplicateIds)
        <==> |ids| == |old(profiles)| && !DistinctProfiles(old(profiles), |old(profiles)|)
      ensures error.Some? ==> profiles == old(profiles)
      ensures error.None? ==> |profiles| == |ids| && forall i | 0 <= i < |ids| :: profiles[i].id == ids[i]
      ensures error.None? ==> forall profile :: profile in profiles <==> profile in old(profiles)
    {
      if |ids| != |profiles| {
        return Some(Incomplete);
      }
      var byId := ById(profiles);
      if |byId| != |ids| {
        return Some(DuplicateIds);
      }
      var ordered := TakeInOrder(byId, ids);
      if ordered.None? {
        return Some(UnknownId);
      }
      forall profile
        ensures profile in ordered.value <==> profile in profiles
      {
        if profile in profiles {
          DistinctKeepsAll(profiles, |profiles|, profile);
          assert byId[profile.id] == profile;
        }
      }
      profiles := ordered.value;
      error := None;
    }
  }

  /** The map after the first `n` profiles: the last of each id. */
  function Collected(profiles: seq<Profile>, n: nat): map<string, Profile>
    requires n <= |profiles|
  {
    if n == 0 then map[] else Collected(profiles, n - 1)[profiles[n - 1].id := profiles[n - 1]]
  }

  method ById(profiles: seq<Profile>) returns (byId: map<string, Profile>)
    ensures byId == Collected(profiles, |profiles|)
    ensures forall id :: id in byId <==> Names(profiles, |profiles|, id)
    ensures forall id <- byId :: byId[id] in profiles && byId[id].id == id
    ensures |byId| == |profiles| <==> DistinctProfiles(profiles, |profiles|)
  {
    byId := map[];
    for n := 0 to |profiles|
      invariant byId == Collected(profiles, n)
    {
      byId := byId[profiles[n].id := profiles[n]];
    }
    CollectedNames(profiles, |profiles|);
    CollectedSize(profiles, |profiles|);
  }

  lemma {:induction false} CollectedNames(profiles: seq<Profile>, n: nat)
    requires n <= |profiles|
    ensures forall id :: id in Collected(profiles, n) <==> Names(profiles, n, id)
    ensures forall id <- Collected(profiles, n) ::
              Collected(profiles, n)[id] in profiles && Collected(profiles, n)[id].id == id
  {
    if n > 0 {
      CollectedNames(profiles, n - 1);
      forall id
        ensures Names(profiles, n, id) <==> Names(profiles, n - 1, id) || id == profiles[n - 1].id
      {
      }
    }
  }

  lemma KeySize(entries: map<string, Profile>, id: string, profile: Profile)
    ensures |entries[id := profile]| == |entries| + if id in entries then 0 else 1
  {
    assert entries[id := profile].Keys == entries.Keys + {id};
    assert |entries[id := profile]| == |entries[id := profile].Keys| && |entries| == |entries.Keys|;
    if id in entries {
      assert entries.Keys + {id} == entries.Keys;
    }
  }

  /** The size of the map tells whether any profile was lost to another of its id. */
  lemma {:induction false} CollectedSize(profiles: seq<Profile>, n: nat)
    requires n <= |profiles|
    ensures |Collected(profiles, n)| <= n && (|Collected(profiles, n)| == n <==> DistinctProfiles(profiles, n))
  {
    if n > 0 {
      CollectedSize(profiles, n - 1);
      CollectedNames(profiles, n - 1);
      KeySize(Collected(profiles, n - 1), profiles[n - 1].id, profiles[n - 1]);
    }
  }

  lemma {:induction false} DistinctKeepsAll(profiles: seq<Profile>, n: nat, profile: Profile)
    requires n <= |profiles| && DistinctProfiles(profiles, n) && profile in profiles[..n]
    ensures profile.id in Collected(profiles, n) && Collected(profiles, n)[profile.id] == profile
  {
    if profile != profiles[n - 1] {
      assert profiles[..n] == profiles[..n - 1] + [profiles[n - 1]];
      DistinctKeepsAll(profiles, n - 1, profile);
      var i :| 0 <= i < n - 1 && profiles[i] == profile;
      assert !Names(profiles, n - 1, profiles[n - 1].id);
    }
  }

  /** Removes one entry per id; none is left over when as many ids as entries were found. */
  method TakeInOrder(byId: map<string, Profile>, ids: seq<string>) returns (ordered: Option<seq<Profile>>)
    requires |byId| == |ids|
    ensures ordered.Some? <==> Distinct(ids, |ids|) && forall id <- ids :: id in byId
    ensures ordered.Some? ==> ArePicked(byId, ids, ordered.value, |ids|)
    ensures ordered.Some? ==> forall id <- byId :: id in ids
  {
    var left := byId;
    var taken: seq<Profile> := [];
    for n := 0 to |ids|
      invariant |left| == |ids| - n && IsLeftOver(byId, left, ids, n)
      invariant Distinct(ids, n) && ArePicked(byId, ids, taken, n)
    {
      var id := ids[n];
      if id !in left {
        if id in byId {
          RepeatIsNotDistinct(ids, |ids|, n);
        }
        return None;
      }
      TakeOne(byId, left, ids, taken, n);
      taken := taken + [left[id]];
      left := left - {id};
    }
    assert ids[..|ids|] == ids && left == map[];
    ordered := Some(taken);
  }

  /** The entries whose ids are not among the first `n`. */
  ghost predicate IsLeftOver(byId: map<string, Profile>, left: map<string, Profile>, ids: seq<string>, n: nat)
    requires n <= |ids|
  {
    && (forall id :: id in left <==> id in byId && id !in ids[..n])
    && (forall id <- left :: left[id] == byId[id])
  }

  predicate ArePicked(byId: map<string, Profile>, ids: seq<string>, taken: seq<Profile>, n: nat)
    requires n <= |ids|
  {
    |taken| == n && forall i | 0 <= i < n :: ids[i] in byId && taken[i] == byId[ids[i]]
  }

  lemma TakeOne(byId: map<string, Profile>, left: map<string, Profile>, ids: seq<string>, taken: seq<Profile>, n: nat)
    requires n < |ids| && IsLeftOver(byId, left, ids, n) && ids[n] in left && ArePicked(byId, ids, taken, n)
    ensures IsLeftOver(byId, left - {ids[n]}, ids, n + 1) && |left - {ids[n]}| == |left| - 1
    ensures ArePicked(byId, ids, taken + [left[ids[n]]], n + 1)
  {
    assert ids[..n + 1] == ids[..n] + [ids[n]];
    assert (left - {ids[n]}).Keys == left.Keys - {ids[n]};
    assert |left| == |left.Keys| && |left - {ids[n]}| == |(left - {ids[n]}).Keys|;
  }

  lemma {:induction false} RepeatIsNotDistinct(ids: seq<string>, n: nat, k: nat)
    requires k < n <= |ids| && ids[k] in ids[..k]
    ensures !Distinct(ids, n)
  {
    if k < n - 1 {
      RepeatIsNotDistinct(ids, n - 1, k);
    }
  }
}
