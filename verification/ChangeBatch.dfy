/** The report of what a catalog write changed (`LibraryChangeBatch` in `src/library/mod.rs`). */
module ChangeBatch {
  import opened Basics

  datatype LibraryChangeBatch = LibraryChangeBatch(itemIds: seq<string>, contextIds: seq<string>) {
    predicate IsEmpty() { itemIds == [] }

    function Merged(other: LibraryChangeBatch): LibraryChangeBatch {
      LibraryChangeBatch(Normalized(itemIds + other.itemIds), Normalized(contextIds + other.contextIds))
    }

    /** The ids this batch announces neither as item nor as context. */
    function Unnamed(ids: seq<string>): seq<string> { Normalized(Omitted(ids)) }

    function Omitted(ids: seq<string>): seq<string> {
      if ids == [] then []
      else if ids[0] !in itemIds && ids[0] !in contextIds then [ids[0]] + Omitted(ids[1..])
      else Omitted(ids[1..])
    }

    predicate Names(id: string) { id in itemIds || id in contextIds }

    /** A context is only reported beside an item. */
    predicate ContextsNeedItems() { itemIds == [] ==> contextIds == [] }
  }

  const NO_CHANGES := LibraryChangeBatch([], [])

  // ---- `normalize_ids`: sort, then drop repeats ----

  function Inserted(ids: seq<string>, id: string): seq<string> {
    if ids == [] || CompareText(id, ids[0]) != Greater then [id] + ids
    else [ids[0]] + Inserted(ids[1..], id)
  }

  function Sorted(ids: seq<string>): seq<string> {
    if ids == [] then [] else Inserted(Sorted(ids[1..]), ids[0])
  }

  function Deduped(ids: seq<string>): seq<string> {
    if |ids| < 2 then ids
    else if ids[0] == ids[1] then Deduped(ids[1..])
    else [ids[0]] + Deduped(ids[1..])
  }

  function Normalized(ids: seq<string>): seq<string> { Deduped(Sorted(ids)) }

  predicate Ascends(ids: seq<string>) {
    |ids| >= 2 ==> CompareText(ids[0], ids[1]) != Greater && Ascends(ids[1..])
  }

  predicate StrictlyAscends(ids: seq<string>) {
    |ids| >= 2 ==> CompareText(ids[0], ids[1]) == Less && StrictlyAscends(ids[1..])
  }

  lemma {:induction false} InsertedAscends(ids: seq<string>, id: string)
    requires Ascends(ids)
    ensures Ascends(Inserted(ids, id)) && forall x :: x in Inserted(ids, id) <==> x == id || x in ids
  {
    if ids != [] {
      TextSwaps(id, ids[0]);
      if CompareText(id, ids[0]) == Greater {
        InsertedAscends(ids[1..], id);
        assert Inserted(ids, id)[1..] == Inserted(ids[1..], id);
      } else {
        assert Inserted(ids, id)[1..] == ids;
      }
    }
  }

  lemma {:induction false} SortedAscends(ids: seq<string>)
    ensures Ascends(Sorted(ids)) && forall x :: x in Sorted(ids) <==> x in ids
  {
    if ids != [] {
      SortedAscends(ids[1..]);
      InsertedAscends(Sorted(ids[1..]), ids[0]);
    }
  }

  lemma {:induction false} DedupedAscends(ids: seq<string>)
    requires Ascends(ids)
    ensures StrictlyAscends(Deduped(ids)) && forall x :: x in Deduped(ids) <==> x in ids
    ensures ids != [] ==> Deduped(ids) != [] && Deduped(ids)[0] == ids[0]
  {
    if |ids| >= 2 {
      DedupedAscends(ids[1..]);
      TextEqualIsIdentity(ids[0], ids[1]);
      if ids[0] != ids[1] {
        assert Deduped(ids)[1..] == Deduped(ids[1..]);
      }
    }
  }

  /** Normalizing keeps the set of ids and lists it strictly ascending. */
  lemma NormalizedListsTheSet(ids: seq<string>)
    ensures StrictlyAscends(Normalized(ids)) && forall x :: x in Normalized(ids) <==> x in ids
  {
    SortedAscends(ids);
    DedupedAscends(Sorted(ids));
  }

  lemma {:induction false} HeadIsLeast(ids: seq<string>, x: string)
    requires StrictlyAscends(ids) && x in ids
    ensures x == ids[0] || CompareText(ids[0], x) == Less
  {
    if x != ids[0] {
      HeadIsLeast(ids[1..], x);
      TextComposes(ids[0], ids[1], x);
    }
  }

  /** A strictly ascending list is determined by its members. */
  lemma {:induction false} StrictListsAreEqual(a: seq<string>, b: seq<string>)
    requires StrictlyAscends(a) && StrictlyAscends(b) && forall x :: x in a <==> x in b
    ensures a == b
  {
    if a != [] || b != [] {
      assert a != [] && b != [] by {
        assert a != [] ==> a[0] in b;
        assert b != [] ==> b[0] in a;
      }
      HeadIsLeast(a, b[0]);
      HeadIsLeast(b, a[0]);
      TextSwaps(a[0], b[0]);
      forall x ensures x in a[1..] <==> x in b[1..] {
        HeadIsNotRepeated(a);
        HeadIsNotRepeated(b);
      }
      StrictListsAreEqual(a[1..], b[1..]);
      assert a == [a[0]] + a[1..] && b == [b[0]] + b[1..];
    }
  }

  lemma HeadIsNotRepeated(ids: seq<string>)
    requires ids != [] && StrictlyAscends(ids)
    ensures ids[0] !in ids[1..] && forall x :: x in ids <==> x == ids[0] || x in ids[1..]
  {
    if |ids| >= 2 {
      TextSwaps(ids[0], ids[1]);
      TextEqualIsIdentity(ids[0], ids[1]);
      if ids[0] in ids[1..] {
        HeadIsLeast(ids[1..], ids[0]);
      }
    }
  }

  // ---- Merging ----

  /** Two id lists normalize alike exactly when they hold the same ids. */
  lemma NormalFormIsUnique(a: seq<string>, b: seq<string>)
    ensures Normalized(a) == Normalized(b) <==> forall x :: x in a <==> x in b
  {
    NormalizedListsTheSet(a);
    NormalizedListsTheSet(b);
    if forall x :: x in a <==> x in b {
      StrictListsAreEqual(Normalized(a), Normalized(b));
    }
  }

  /** A merge names exactly what either batch named, whatever the order of merging, and keeps
      contexts beside items. */
  lemma MergeNamesBoth(a: LibraryChangeBatch, b: LibraryChangeBatch)
    ensures forall id :: id in a.Merged(b).itemIds <==> id in a.itemIds || id in b.itemIds
    ensures forall id :: id in a.Merged(b).contextIds <==> id in a.contextIds || id in b.contextIds
    ensures a.Merged(b) == b.Merged(a)
    ensures a.ContextsNeedItems() && b.ContextsNeedItems() ==> a.Merged(b).ContextsNeedItems()
  {
    NormalizedListsTheSet(a.itemIds + b.itemIds);
    NormalizedListsTheSet(a.contextIds + b.contextIds);
    NormalFormIsUnique(a.itemIds + b.itemIds, b.itemIds + a.itemIds);
    NormalFormIsUnique(a.contextIds + b.contextIds, b.contextIds + a.contextIds);
    var merged := a.Merged(b);
    assert merged.itemIds == [] ==> a.itemIds == [] && b.itemIds == [] by {
      assert a.itemIds != [] ==> a.itemIds[0] in merged.itemIds;
      assert b.itemIds != [] ==> b.itemIds[0] in merged.itemIds;
    }
    assert merged.contextIds != [] ==> merged.contextIds[0] in a.contextIds + b.contextIds;
  }

  lemma {:induction false} OmittedMembers(batch: LibraryChangeBatch, ids: seq<string>, id: string)
    ensures id in batch.Omitted(ids) <==> id in ids && !batch.Names(id)
  {
    if ids != [] {
      OmittedMembers(batch, ids[1..], id);
    }
  }

  lemma UnnamedMembers(batch: LibraryChangeBatch, ids: seq<string>, id: string)
    ensures id in batch.Unnamed(ids) <==> id in ids && !batch.Names(id)
  {
    OmittedMembers(batch, ids, id);
    NormalizedListsTheSet(batch.Omitted(ids));
  }
}
