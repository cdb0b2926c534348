/** Writing fetched items to the catalog index (`src/library/catalog.rs`). The two tables are maps
    from the item id; a transaction is one step. The columns of a row that no writer looks at are
    one text here. */
module Catalog {
  import opened Basics
  import opened ChangeBatch

  datatype ItemRecord = ItemRecord(
    kind: string, parentId: Option<string>, seriesId: Option<string>, seasonId: Option<string>, columns: string)

  datatype ItemRow = ItemRow(record: ItemRecord, syncedAt: int)
  datatype UserDataRow = UserDataRow(record: string, updatedAt: int)
  datatype Tables = Tables(items: map<string, ItemRow>, userData: map<string, UserDataRow>)

  datatype Dto = Dto(
    id: string, itemType: Option<string>, parentId: Option<string>, seriesId: Option<string>,
    seasonId: Option<string>, columns: string, userData: Option<string>)
  {
    /** `ItemRecord::from_dto`: related ids are trimmed, and blank ones are none. */
    function Record(): ItemRecord {
      ItemRecord(if itemType.Some? then itemType.value else "Unknown",
                 NonEmpty(parentId), NonEmpty(seriesId), NonEmpty(seasonId), columns)
    }

    /** What the catalog holds: titles of the four kinds, with an id. */
    predicate IsUsable() { !IsBlank(id) && itemType.Some? && IsSyncedKind(itemType.value) }
  }

  predicate IsSyncedKind(kind: string) { kind in {"Movie", "Series", "Season", "Episode"} }

  predicate IsChild(record: ItemRecord, parentId: string) {
    record.parentId == Some(parentId) || (record.seasonId == Some(parentId) && record.kind == "Episode")
  }

  function Children(tables: Tables, parentId: string): set<string> {
    set id | id in tables.items && IsChild(tables.items[id].record, parentId)
  }

  /** The related ids a change is reported under: those that are not blank. */
  function Contexts(parentId: Option<string>, seriesId: Option<string>, seasonId: Option<string>): set<string> {
    ContextSet(parentId) + ContextSet(seriesId) + ContextSet(seasonId)
  }

  function ContextSet(id: Option<string>): set<string> {
    if id.Some? && !IsBlank(id.value) then {id.value} else {}
  }

  // ---- One answer, as the tables and the report after each of its items ----

  predicate ItemMoves(tables: Tables, dto: Dto) {
    dto.id !in tables.items || tables.items[dto.id].record != dto.Record()
  }

  predicate UserDataMoves(tables: Tables, dto: Dto) {
    dto.userData.Some? && (dto.id !in tables.userData || tables.userData[dto.id].record != dto.userData.value)
  }

  /** Rows that would not change keep even the time of their last write. */
  function Upserted(tables: Tables, dto: Dto, now: int): Tables {
    Tables(if ItemMoves(tables, dto) then tables.items[dto.id := ItemRow(dto.Record(), now)] else tables.items,
           if UserDataMoves(tables, dto) then tables.userData[dto.id := UserDataRow(dto.userData.value, now)]
           else tables.userData)
  }

  function Ingested(tables: Tables, dtos: seq<Dto>, n: nat, now: int): Tables
    requires n <= |dtos|
  {
    if n == 0 then tables
    else if dtos[n - 1].IsUsable() then Upserted(Ingested(tables, dtos, n - 1, now), dtos[n - 1], now)
    else Ingested(tables, dtos, n - 1, now)
  }

  predicate Moved(tables: Tables, dtos: seq<Dto>, k: nat, now: int)
    requires k < |dtos|
  {
    var before := Ingested(tables, dtos, k, now);
    dtos[k].IsUsable() && (ItemMoves(before, dtos[k]) || UserDataMoves(before, dtos[k]))
  }

  function MovedIds(tables: Tables, dtos: seq<Dto>, n: nat, now: int): set<string>
    requires n <= |dtos|
  {
    if n == 0 then {}
    else MovedIds(tables, dtos, n - 1, now) + if Moved(tables, dtos, n - 1, now) then {dtos[n - 1].id} else {}
  }

  function MovedContexts(tables: Tables, dtos: seq<Dto>, n: nat, now: int): set<string>
    requires n <= |dtos|
  {
    if n == 0 then {}
    else
      var dto := dtos[n - 1];
      MovedContexts(tables, dtos, n - 1, now)
      + if Moved(tables, dtos, n - 1, now) then Contexts(dto.parentId, dto.seriesId, dto.seasonId) else {}
  }

  function NamedIds(dtos: seq<Dto>, n: nat): set<string>
    requires n <= |dtos|
  {
    if n == 0 then {}
    else NamedIds(dtos, n - 1) + if dtos[n - 1].IsUsable() then {dtos[n - 1].id} else {}
  }

  // ---- Deleting ----

  function Deleted(tables: Tables, ids: set<string>): Tables {
    Tables(tables.items - ids, tables.userData - ids)
  }

  function DeletedIds(tables: Tables, ids: set<string>): set<string> { ids * tables.items.Keys }

  function DeletedContexts(tables: Tables, ids: set<string>): set<string> {
    set id, context | id in DeletedIds(tables, ids) && context in RowContexts(tables.items[id]) :: context
  }

  lemma OneMoreDeleted(tables: Tables, ids: set<string>, id: string)
    ensures DeletedIds(tables, ids + {id}) == DeletedIds(tables, ids) + if id in tables.items then {id} else {}
    ensures DeletedContexts(tables, ids + {id})
      == DeletedContexts(tables, ids) + if id in tables.items then RowContexts(tables.items[id]) else {}
    ensures Deleted(tables, ids + {id}) == Deleted(Deleted(tables, ids), {id})
  {
    assert DeletedIds(tables, ids + {id}) == DeletedIds(tables, ids) + if id in tables.items then {id} else {};
    assert tables.items - (ids + {id}) == tables.items - ids - {id};
    assert tables.userData - (ids + {id}) == tables.userData - ids - {id};
  }

  function RowContexts(row: ItemRow): set<string> {
    Contexts(row.record.parentId, row.record.seriesId, row.record.seasonId)
  }

  // ---- Reconciling one parent's children with a complete answer ----

  function Stale(tables: Tables, parentId: string, dtos: seq<Dto>): set<string> {
    Children(tables, parentId) - NamedIds(dtos, |dtos|)
  }

  function Reconciled(tables: Tables, parentId: string, dtos: seq<Dto>, now: int): Tables {
    Deleted(Ingested(tables, dtos, |dtos|, now), Stale(tables, parentId, dtos))
  }

  function ReconciledIds(tables: Tables, parentId: string, dtos: seq<Dto>, now: int): set<string> {
    MovedIds(tables, dtos, |dtos|, now)
    + DeletedIds(Ingested(tables, dtos, |dtos|, now), Stale(tables, parentId, dtos))
  }

  function ReconciledContexts(tables: Tables, parentId: string, dtos: seq<Dto>, now: int): set<string> {
    MovedContexts(tables, dtos, |dtos|, now)
    + DeletedContexts(Ingested(tables, dtos, |dtos|, now), Stale(tables, parentId, dtos))
  }

  /** A finished report: these items and contexts, each id once and in order. */
  ghost predicate Reports(changes: LibraryChangeBatch, items: set<string>, contexts: set<string>) {
    && StrictlyAscends(changes.itemIds) && StrictlyAscends(changes.contextIds)
    && (forall id :: id in changes.itemIds <==> id in items)
    && (forall id :: id in changes.contextIds <==> id in contexts)
  }

  class CatalogIndex {
    var tables: Tables

    constructor (tables: Tables)
      ensures this.tables == tables
    {
      this.tables := tables;
    }

    method UpsertItemIfChanged(dto: Dto, now: int) returns (written: bool)
      modifies this
      ensures written == old(ItemMoves(tables, dto)) && tables.userData == old(tables.userData)
      ensures var was := old(tables.items);
              tables.items == if written then was[dto.id := ItemRow(dto.Record(), now)] else was
    {
      written := dto.id !in tables.items || tables.items[dto.id].record != dto.Record();
      if written {
        tables := tables.(items := tables.items[dto.id := ItemRow(dto.Record(), now)]);
      }
    }

    method UpsertUserData(id: string, record: string, now: int) returns (written: bool)
      modifies this
      ensures written == old(id !in tables.userData || tables.userData[id].record != record)
      ensures tables.items == old(tables.items)
      ensures var was := old(tables.userData);
              tables.userData == if written then was[id := UserDataRow(record, now)] else was
    {
      written := id !in tables.userData || tables.userData[id].record != record;
      if written {
        tables := tables.(userData := tables.userData[id := UserDataRow(record, now)]);
      }
    }

    /** The loop shared by `ingest_page` and `reconcile_children`. */
    method UpsertAll(dtos: seq<Dto>, now: int)
      returns (itemIds: seq<string>, contextIds: seq<string>, keep: set<string>)
      modifies this
      ensures tables == Ingested(old(tables), dtos, |dtos|, now) && keep == NamedIds(dtos, |dtos|)
      ensures forall id :: id in itemIds <==> id in MovedIds(old(tables), dtos, |dtos|, now)
      ensures forall id :: id in contextIds <==> id in MovedContexts(old(tables), dtos, |dtos|, now)
    {
      itemIds, contextIds, keep := [], [], {};
      for n := 0 to |dtos|
        invariant tables == Ingested(old(tables), dtos, n, now) && keep == NamedIds(dtos, n)
        invariant forall id :: id in itemIds <==> id in MovedIds(old(tables), dtos, n, now)
        invariant forall id :: id in contextIds <==> id in MovedContexts(old(tables), dtos, n, now)
      {
        var dto := dtos[n];
        if !dto.IsUsable() {
          continue;
        }
        keep := keep + {dto.id};
        var moved := UpsertItemIfChanged(dto, now);
        if dto.userData.Some? {
          var written := UpsertUserData(dto.id, dto.userData.value, now);
          moved := moved || written;
        }
        if moved {
          itemIds := itemIds + [dto.id];
          contextIds := contextIds + ContextList(dto.parentId, dto.seriesId, dto.seasonId);
        }
      }
    }

    method DeleteItems(ids: set<string>) returns (itemIds: seq<string>, contextIds: seq<string>)
      modifies this
      ensures tables == Deleted(old(tables), ids)
      ensures forall id :: id in itemIds <==> id in DeletedIds(old(tables), ids)
      ensures forall id :: id in contextIds <==> id in DeletedContexts(old(tables), ids)
    {
      itemIds, contextIds := [], [];
      var rest := ids;
      ghost var done := {};
      while rest != {}
        invariant done + rest == ids && tables == Deleted(old(tables), done)
        invariant done !! rest
        invariant forall id :: id in itemIds <==> id in DeletedIds(old(tables), done)
        invariant forall id :: id in contextIds <==> id in DeletedContexts(old(tables), done)
        decreases rest
      {
        var id :| id in rest;
        OneMoreDeleted(old(tables), done, id);
        if id in tables.items {
          var record := tables.items[id].record;
          contextIds := contextIds + ContextList(record.parentId, record.seriesId, record.seasonId);
          itemIds := itemIds + [id];
        }
        tables := Tables(tables.items - {id}, tables.userData - {id});
        rest, done := rest - {id}, done + {id};
      }
      assert done == ids;
    }

    method IngestPage(dtos: seq<Dto>, now: int) returns (changes: LibraryChangeBatch)
      modifies this
      ensures tables == Ingested(old(tables), dtos, |dtos|, now)
      ensures Reports(changes, MovedIds(old(tables), dtos, |dtos|, now), MovedContexts(old(tables), dtos, |dtos|, now))
    {
      var itemIds, contextIds, keep := UpsertAll(dtos, now);
      NormalizedListsTheSet(itemIds);
      NormalizedListsTheSet(contextIds);
      changes := LibraryChangeBatch(Normalized(itemIds), Normalized(contextIds));
    }

    method ReconcileChildren(parentId: string, dtos: seq<Dto>, now: int) returns (changes: LibraryChangeBatch)
      modifies this
      ensures tables == Reconciled(old(tables), parentId, dtos, now)
      ensures Reports(changes, ReconciledIds(old(tables), parentId, dtos, now),
                      ReconciledContexts(old(tables), parentId, dtos, now))
    {
      var existing := set id | id in tables.items && IsChild(tables.items[id].record, parentId);
      var itemIds, contextIds, keep := UpsertAll(dtos, now);
      var dropped, droppedContexts := DeleteItems(existing - keep);
      itemIds, contextIds := itemIds + dropped, contextIds + droppedContexts;
      NormalizedListsTheSet(itemIds);
      NormalizedListsTheSet(contextIds);
      changes := LibraryChangeBatch(Normalized(itemIds), Normalized(contextIds));
    }

    method Forget(itemId: string) returns (changes: LibraryChangeBatch)
      modifies this
      ensures tables == Deleted(old(tables), {itemId})
      ensures Reports(changes, DeletedIds(old(tables), {itemId}), DeletedContexts(old(tables), {itemId}))
    {
      var itemIds, contextIds := DeleteItems({itemId});
      NormalizedListsTheSet(itemIds);
      NormalizedListsTheSet(contextIds);
      changes := LibraryChangeBatch(Normalized(itemIds), Normalized(contextIds));
    }
  }

  /** `record_change_identity`: each related id that is present and not blank. */
  function ContextList(parentId: Option<string>, seriesId: Option<string>, seasonId: Option<string>):
    (list: seq<string>)
    ensures forall context :: context in list <==> context in Contexts(parentId, seriesId, seasonId)
  {
    ContextOf(parentId) + ContextOf(seriesId) + ContextOf(seasonId)
  }

  function ContextOf(id: Option<string>): seq<string> {
    if id.Some? && !IsBlank(id.value) then [id.value] else []
  }

  // ---- What one call does to each row ----

  predicate RowsAgree(a: Tables, b: Tables, id: string) {
    && (id in a.items <==> id in b.items) && (id in a.items ==> a.items[id] == b.items[id])
    && (id in a.userData <==> id in b.userData) && (id in a.userData ==> a.userData[id] == b.userData[id])
  }

  /** No two usable items of one answer contradict each other about one id; distinct ids never do. */
  ghost predicate Consistent(dtos: seq<Dto>) {
    forall i, j | 0 <= i < |dtos| && 0 <= j < |dtos| :: NoContradiction(dtos[i], dtos[j])
  }

  predicate NoContradiction(a: Dto, b: Dto) {
    a.IsUsable() && b.IsUsable() && a.id == b.id ==>
      a.Record() == b.Record() && (a.userData.Some? && b.userData.Some? ==> a.userData == b.userData)
  }

  lemma DistinctIdsAreConsistent(dtos: seq<Dto>)
    requires forall i, j | 0 <= i < j < |dtos| :: dtos[i].id != dtos[j].id
    ensures Consistent(dtos)
  {
  }

  /** A row that an answer changes is reported, and a reported row is one the answer names. */
  lemma {:induction false} IngestReportsEveryChange(tables: Tables, dtos: seq<Dto>, n: nat, now: int, id: string)
    requires n <= |dtos|
    ensures !RowsAgree(tables, Ingested(tables, dtos, n, now), id) ==> id in MovedIds(tables, dtos, n, now)
    ensures id in MovedIds(tables, dtos, n, now) ==> id in NamedIds(dtos, n)
  {
    if n > 0 {
      IngestReportsEveryChange(tables, dtos, n - 1, now, id);
    }
  }

  /** The tables hold what this item says. */
  predicate Holds(tables: Tables, dto: Dto) {
    && dto.id in tables.items && tables.items[dto.id].record == dto.Record()
    && (dto.userData.Some? ==> dto.id in tables.userData && tables.userData[dto.id].record == dto.userData.value)
  }

  /** A consistent answer ends up in the tables whole. */
  lemma {:induction false} ConsistentIngestHolds(tables: Tables, dtos: seq<Dto>, n: nat, now: int, k: nat)
    requires k < n <= |dtos| && Consistent(dtos) && dtos[k].IsUsable()
    ensures Holds(Ingested(tables, dtos, n, now), dtos[k])
  {
    if k < n - 1 {
      ConsistentIngestHolds(tables, dtos, n - 1, now, k);
      assert NoContradiction(dtos[k], dtos[n - 1]);
    }
  }

  /** And then each report stands for something the tables did not hold. */
  lemma {:induction false} MovedWasNotHeld(tables: Tables, dtos: seq<Dto>, n: nat, now: int, id: string)
    returns (k: nat)
    requires n <= |dtos| && Consistent(dtos) && id in MovedIds(tables, dtos, n, now)
    ensures k < n && dtos[k].id == id && dtos[k].IsUsable() && !Holds(tables, dtos[k])
  {
    if id in MovedIds(tables, dtos, n - 1, now) {
      k := MovedWasNotHeld(tables, dtos, n - 1, now, id);
    } else {
      k := n - 1;
      IngestReportsEveryChange(tables, dtos, n - 1, now, id);
    }
  }

  lemma IngestKeepsTheUnnamed(tables: Tables, dtos: seq<Dto>, now: int, id: string)
    requires id !in NamedIds(dtos, |dtos|)
    ensures RowsAgree(tables, Ingested(tables, dtos, |dtos|, now), id) && id !in MovedIds(tables, dtos, |dtos|, now)
  {
    IngestReportsEveryChange(tables, dtos, |dtos|, now, id);
  }

  /** An answer names the titles of the four kinds that have an id. */
  lemma {:induction false} NamedExactly(dtos: seq<Dto>, n: nat, id: string)
    requires n <= |dtos|
    ensures id in NamedIds(dtos, n) <==> exists k | 0 <= k < n :: dtos[k].id == id && IsTitle(dtos[k])
  {
    if n > 0 {
      NamedExactly(dtos, n - 1, id);
    }
  }

  predicate IsTitle(dto: Dto) {
    && (exists ch <- dto.id :: !IsWhitespace(ch))
    && dto.itemType in {Some("Movie"), Some("Series"), Some("Season"), Some("Episode")}
  }

  /** Every row is as it was or was written now. */
  lemma {:induction false} RowsAreKeptOrNew(tables: Tables, dtos: seq<Dto>, n: nat, now: int, id: string)
    requires n <= |dtos|
    ensures var items := Ingested(tables, dtos, n, now).items;
            id in items ==> (id in tables.items && items[id] == tables.items[id]) || items[id].syncedAt == now
    ensures var userData := Ingested(tables, dtos, n, now).userData;
            id in userData ==> (id in tables.userData && userData[id] == tables.userData[id])
                               || userData[id].updatedAt == now
  {
    if n > 0 {
      RowsAreKeptOrNew(tables, dtos, n - 1, now, id);
    }
  }

  /** Field by field, what a title of a consistent answer leaves in the tables. */
  lemma IngestedRowReads(tables: Tables, dtos: seq<Dto>, now: int, k: nat)
    requires k < |dtos| && Consistent(dtos) && IsTitle(dtos[k])
    ensures var dto, after := dtos[k], Ingested(tables, dtos, |dtos|, now);
            && dto.id in after.items
            && var record := after.items[dto.id].record;
            && record.kind == dto.itemType.value && record.columns == dto.columns
            && record.parentId == NonEmpty(dto.parentId) && record.seriesId == NonEmpty(dto.seriesId)
            && record.seasonId == NonEmpty(dto.seasonId)
            && (dto.userData.Some? ==> dto.id in after.userData && after.userData[dto.id].record == dto.userData.value)
  {
    ConsistentIngestHolds(tables, dtos, |dtos|, now, k);
  }

  /** The contexts of a report are the parents, series and seasons of what moved. */
  lemma {:induction false} MovedContextsAreRelated(tables: Tables, dtos: seq<Dto>, n: nat, now: int, id: string)
    requires n <= |dtos|
    ensures id in MovedContexts(tables, dtos, n, now) <==> exists k | 0 <= k < n ::
              Moved(tables, dtos, k, now) && IsRelated(dtos[k].parentId, dtos[k].seriesId, dtos[k].seasonId, id)
  {
    if n > 0 {
      MovedContextsAreRelated(tables, dtos, n - 1, now, id);
    }
  }

  lemma DeletedContextsAreRelated(tables: Tables, ids: set<string>, id: string)
    ensures id in DeletedContexts(tables, ids)
      <==> exists item <- ids :: item in tables.items && IsRelatedTo(tables.items[item].record, id)
  {
    if id in DeletedContexts(tables, ids) {
      var item :| item in DeletedIds(tables, ids) && id in RowContexts(tables.items[item]);
      assert item in ids && IsRelatedTo(tables.items[item].record, id);
    }
    if item :| item in ids && item in tables.items && IsRelatedTo(tables.items[item].record, id) {
      assert item in DeletedIds(tables, ids) && id in RowContexts(tables.items[item]);
    }
  }

  predicate IsRelated(parentId: Option<string>, seriesId: Option<string>, seasonId: Option<string>, id: string) {
    (exists ch <- id :: !IsWhitespace(ch)) && (parentId == Some(id) || seriesId == Some(id) || seasonId == Some(id))
  }

  predicate IsRelatedTo(record: ItemRecord, id: string) {
    IsRelated(record.parentId, record.seriesId, record.seasonId, id)
  }

  // ---- Reconciling ----

  /** Directly inside the parent, or an episode of that season. */
  predicate StandsIn(record: ItemRecord, parentId: string) {
    record.parentId == Some(parentId) || (record.kind == "Episode" && record.seasonId == Some(parentId))
  }

  /** Afterwards every row inside the parent, episodes of a season included, is named by the answer,
      and a row that was not inside and is not named is untouched. */
  lemma ReconcileKeepsNamedChildrenOnly(tables: Tables, parentId: string, dtos: seq<Dto>, now: int, id: string)
    ensures var after := Reconciled(tables, parentId, dtos, now);
            var named := exists dto <- dtos :: dto.id == id && IsTitle(dto);
            && (id in after.items && StandsIn(after.items[id].record, parentId) ==> named)
            && (!(id in tables.items && StandsIn(tables.items[id].record, parentId)) && !named ==>
                  RowsAgree(tables, after, id))
  {
    NamedExactly(dtos, |dtos|, id);
    assert id in NamedIds(dtos, |dtos|) <==> exists dto <- dtos :: dto.id == id && IsTitle(dto);
    if id !in NamedIds(dtos, |dtos|) {
      IngestKeepsTheUnnamed(tables, dtos, now, id);
    }
  }

  /** The report covers every row that changed; for a consistent answer it is exact. */
  lemma ReconcileReportsExactly(tables: Tables, parentId: string, dtos: seq<Dto>, now: int, id: string)
    ensures var after := Reconciled(tables, parentId, dtos, now);
            var reported := ReconciledIds(tables, parentId, dtos, now);
            && (!RowsAgree(tables, after, id) ==> id in reported)
            && (Consistent(dtos) ==> (id in reported <==> !RowsAgree(tables, after, id)))
  {
    IngestReportsEveryChange(tables, dtos, |dtos|, now, id);
    if id !in NamedIds(dtos, |dtos|) {
      IngestKeepsTheUnnamed(tables, dtos, now, id);
    } else if Consistent(dtos) && id in MovedIds(tables, dtos, |dtos|, now) {
      var k := MovedWasNotHeld(tables, dtos, |dtos|, now, id);
      ConsistentIngestHolds(tables, dtos, |dtos|, now, k);
    }
  }

  lemma {:induction false} NothingMoves(tables: Tables, dtos: seq<Dto>, n: nat, now: int)
    requires n <= |dtos|
    ensures MovedIds(tables, dtos, n, now) == {}
      <==> forall k | 0 <= k < n && dtos[k].IsUsable() :: Holds(tables, dtos[k])
    ensures MovedIds(tables, dtos, n, now) == {} ==>
              Ingested(tables, dtos, n, now) == tables && MovedContexts(tables, dtos, n, now) == {}
  {
    if n > 0 {
      NothingMoves(tables, dtos, n - 1, now);
      var dto := dtos[n - 1];
      if MovedIds(tables, dtos, n - 1, now) == {} && dto.IsUsable() {
        assert Moved(tables, dtos, n - 1, now) <==> !Holds(tables, dto);
      }
    }
  }

  /** The same answer a second time reports nothing exactly when it is consistent, and then it
      leaves every row alone, down to the time of its last write. */
  lemma SecondReconcileReportsNothing(tables: Tables, parentId: string, dtos: seq<Dto>, now: int, later: int)
    ensures var first := Reconciled(tables, parentId, dtos, now);
            && (ReconciledIds(first, parentId, dtos, later) == {} <==> Consistent(dtos))
            && (Consistent(dtos) ==> Reconciled(first, parentId, dtos, later) == first)
  {
    var first := Reconciled(tables, parentId, dtos, now);
    NothingMoves(first, dtos, |dtos|, later);
    assert Stale(first, parentId, dtos) == {} by {
      forall id | id in Children(first, parentId)
        ensures id in NamedIds(dtos, |dtos|)
      {
        ReconcileKeepsNamedChildrenOnly(tables, parentId, dtos, now, id);
        NamedExactly(dtos, |dtos|, id);
      }
    }
    if Consistent(dtos) {
      forall k | 0 <= k < |dtos| && dtos[k].IsUsable()
        ensures Holds(first, dtos[k])
      {
        ConsistentIngestHolds(tables, dtos, |dtos|, now, k);
        UsableIsNamed(dtos, |dtos|, k);
      }
    } else {
      var i, j :| 0 <= i < |dtos| && 0 <= j < |dtos| && !NoContradiction(dtos[i], dtos[j]);
      assert !Holds(first, dtos[i]) || !Holds(first, dtos[j]);
    }
  }

  /** A contradiction: the same title twice, with different columns. The second reconciliation moves
      it there and back, and reports it. */
  lemma ContradictionReportsAgain(tables: Tables, parentId: string, now: int, later: int)
    ensures var dto := Dto("a", Some("Movie"), None, None, None, "old", None);
            var dtos := [dto, dto.(columns := "new")];
            var first := Reconciled(tables, parentId, dtos, now);
            !Consistent(dtos) && "a" in ReconciledIds(first, parentId, dtos, later)
  {
    var dto := Dto("a", Some("Movie"), None, None, None, "old", None);
    var dtos := [dto, dto.(columns := "new")];
    var first := Reconciled(tables, parentId, dtos, now);
    assert !IsWhitespace("a"[0]) && dto.IsUsable();
    assert !NoContradiction(dtos[0], dtos[1]);
    assert Ingested(first, dtos, 0, later) == first;
    assert Moved(first, dtos, 0, later);
    assert MovedIds(first, dtos, 1, later) == {"a"};
  }

  lemma {:induction false} UsableIsNamed(dtos: seq<Dto>, n: nat, k: nat)
    requires k < n <= |dtos| && dtos[k].IsUsable()
    ensures dtos[k].id in NamedIds(dtos, n)
  {
    if k < n - 1 {
      UsableIsNamed(dtos, n - 1, k);
    }
  }

  /** Contexts are only reported beside items. */
  lemma {:induction false} MovedContextsNeedItems(tables: Tables, dtos: seq<Dto>, n: nat, now: int)
    requires n <= |dtos|
    ensures MovedIds(tables, dtos, n, now) == {} ==> MovedContexts(tables, dtos, n, now) == {}
  {
    if n > 0 {
      MovedContextsNeedItems(tables, dtos, n - 1, now);
    }
  }

  lemma DeletedContextsNeedItems(tables: Tables, ids: set<string>)
    ensures DeletedIds(tables, ids) == {} ==> DeletedContexts(tables, ids) == {}
  {
  }
}
