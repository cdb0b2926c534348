/** A pushed library change (`apply_library_change` in `src/jellyfin/socket.rs`): removed items are
    evicted, changed ones fetched and cached, and everything the push named is announced. When the
    session moves on and whether a write fails are open; what a fetch answers is a parameter. */
module LibraryPush {
  import opened Basics
  import opened ChangeBatch
  import opened Catalog

  const FETCH_CHUNK := 100

  datatype LibraryChange = LibraryChange(changed: seq<string>, removed: seq<string>, folders: seq<string>) {
    predicate Mentions(id: string) { id in changed || id in removed || id in folders }
  }

  datatype Announcement =
    | LibraryChanged(itemIds: seq<string>, contextIds: seq<string>)
    | LiveChanged(itemIds: seq<string>, contextIds: seq<string>)

  datatype ScopedWriteError = Stale | Storage

  // ---- The announcements a finished push makes ----

  function LibraryNews(batch: LibraryChangeBatch): seq<Announcement> {
    if batch.itemIds == [] then [] else [LibraryChanged(batch.itemIds, batch.contextIds)]
  }

  function LiveNews(items: seq<string>, folders: seq<string>): seq<Announcement> {
    if items == [] && folders == [] then [] else [LiveChanged(items, folders)]
  }

  /** Everything a push announces while its session stays current. */
  function News(batch: LibraryChangeBatch, change: LibraryChange): seq<Announcement> {
    LibraryNews(batch) + LiveNews(batch.Unnamed(change.changed + change.removed), batch.Unnamed(change.folders))
  }

  /** How an announcement speaks of an id: as an item or as a context of the library, as an item or as
      a folder that only the server serves. */
  predicate ToldAsItem(news: seq<Announcement>, id: string) {
    exists a <- news :: a.LibraryChanged? && id in a.itemIds
  }

  predicate ToldAsContext(news: seq<Announcement>, id: string) {
    exists a <- news :: a.LibraryChanged? && id in a.contextIds
  }

  predicate LiveAsItem(news: seq<Announcement>, id: string) { exists a <- news :: a.LiveChanged? && id in a.itemIds }

  predicate LiveAsFolder(news: seq<Announcement>, id: string) {
    exists a <- news :: a.LiveChanged? && id in a.contextIds
  }

  lemma LibraryNewsTells(batch: LibraryChangeBatch, id: string)
    requires batch.ContextsNeedItems()
    ensures ToldAsItem(LibraryNews(batch), id) <==> id in batch.itemIds
    ensures ToldAsContext(LibraryNews(batch), id) <==> id in batch.contextIds
    ensures !LiveAsItem(LibraryNews(batch), id) && !LiveAsFolder(LibraryNews(batch), id)
  {
    if batch.itemIds != [] {
      assert LibraryNews(batch)[0] == LibraryChanged(batch.itemIds, batch.contextIds);
    }
  }

  lemma LiveNewsTells(items: seq<string>, folders: seq<string>, id: string)
    ensures LiveAsItem(LiveNews(items, folders), id) <==> id in items
    ensures LiveAsFolder(LiveNews(items, folders), id) <==> id in folders
    ensures !ToldAsItem(LiveNews(items, folders), id) && !ToldAsContext(LiveNews(items, folders), id)
  {
    if items != [] || folders != [] {
      assert LiveNews(items, folders)[0] == LiveChanged(items, folders);
    }
  }

  /** How a push ends: with everything announced, with the session gone before the live lists, or
      with the session gone before anything was announced. */
  datatype Outcome = Announced | StaleAtTheEnd | Dropped

  /** Every item row that differs is in the batch. */
  ghost predicate Covers(batch: LibraryChangeBatch, before: Tables, after: Tables) {
    forall id | !ItemAgrees(before, after, id) :: id in batch.itemIds
  }

  predicate ItemAgrees(a: Tables, b: Tables, id: string) {
    (id in a.items <==> id in b.items) && (id in a.items ==> a.items[id] == b.items[id])
  }

  lemma MergeCovers(batch: LibraryChangeBatch, changes: LibraryChangeBatch,
                    before: Tables, between: Tables, after: Tables)
    requires Covers(batch, before, between) && Covers(changes, between, after)
    requires batch.ContextsNeedItems() && changes.ContextsNeedItems()
    ensures Covers(batch.Merged(changes), before, after) && batch.Merged(changes).ContextsNeedItems()
  {
    MergeNamesBoth(batch, changes);
  }

  /** Every item row that differs is told as an item of the library. */
  ghost predicate TellsChanges(before: Tables, after: Tables, news: seq<Announcement>) {
    forall id | !ItemAgrees(before, after, id) :: ToldAsItem(news, id)
  }

  lemma NewsTellsChanges(sent: seq<Announcement>, batch: LibraryChangeBatch, live: seq<Announcement>,
                         before: Tables, after: Tables)
    requires Covers(batch, before, after) && batch.ContextsNeedItems()
    ensures TellsChanges(before, after, (sent + (LibraryNews(batch) + live))[|sent|..])
  {
    var news := LibraryNews(batch) + live;
    assert (sent + news)[|sent|..] == news;
    forall id | !ItemAgrees(before, after, id)
      ensures ToldAsItem(news, id)
    {
      LibraryNewsTells(batch, id);
      assert forall a :: a in news <==> a in LibraryNews(batch) || a in live;
    }
  }

  // ---- What a push does when no write fails ----

  /** The catalog so far, and what its writes reported. */
  datatype Applied = Applied(tables: Tables, items: set<string>, contexts: set<string>)

  function Forgot(applied: Applied, id: string): Applied {
    Applied(Deleted(applied.tables, {id}), applied.items + DeletedIds(applied.tables, {id}),
            applied.contexts + DeletedContexts(applied.tables, {id}))
  }

  function Cached(applied: Applied, dtos: seq<Dto>, now: int): Applied {
    Applied(Ingested(applied.tables, dtos, |dtos|, now), applied.items + MovedIds(applied.tables, dtos, |dtos|, now),
            applied.contexts + MovedContexts(applied.tables, dtos, |dtos|, now))
  }

  function AfterRemovals(applied: Applied, removed: seq<string>, n: nat): Applied
    requires n <= |removed|
  {
    if n == 0 then applied else Forgot(AfterRemovals(applied, removed, n - 1), removed[n - 1])
  }

  /** Eviction is complete, whatever the order and the repeats of the list. */
  lemma {:induction false} RemovedAreGone(applied: Applied, removed: seq<string>, n: nat, id: string)
    requires n <= |removed|
    ensures var tables := AfterRemovals(applied, removed, n).tables;
            && (id in tables.items <==> id in applied.tables.items && id !in removed[..n])
            && (id in tables.userData <==> id in applied.tables.userData && id !in removed[..n])
  {
    if n > 0 {
      RemovedAreGone(applied, removed, n - 1, id);
      assert removed[..n] == removed[..n - 1] + [removed[n - 1]];
    }
  }

  /** The server is asked for what is left, at most a hundred ids at a time. */
  lemma ChunkIsBounded(changed: seq<string>, at: nat)
    requires at < |changed|
    ensures Chunk(changed, at) <= changed[at..]
    ensures |Chunk(changed, at)| == if |changed| - at < 100 then |changed| - at else 100
  {
  }

  function Chunk(changed: seq<string>, at: nat): seq<string>
    requires at < |changed|
  {
    changed[at..if at + FETCH_CHUNK < |changed| then at + FETCH_CHUNK else |changed|]
  }

  /** Chunk by chunk, up to the first that cannot be fetched. */
  function AfterChunks(applied: Applied, changed: seq<string>, at: nat,
                       fetch: seq<string> -> Option<seq<Dto>>, now: int): Applied
    decreases |changed| - at
  {
    if at >= |changed| then applied
    else
      match fetch(Chunk(changed, at))
      case None => applied
      case Some(dtos) => AfterChunks(Cached(applied, dtos, now), changed, at + |Chunk(changed, at)|, fetch, now)
  }

  /** A chunk that cannot be fetched leaves it and all behind it to the next synchronization; one that
      can is cached, and the rest follows. */
  lemma ChunksStopAtAFailure(applied: Applied, changed: seq<string>, at: nat, fetch: seq<string> -> Option<seq<Dto>>,
                             now: int)
    requires at < |changed|
    ensures var answer, after := fetch(Chunk(changed, at)), AfterChunks(applied, changed, at, fetch, now);
            if answer.None? then after == applied
            else var tables := Ingested(applied.tables, answer.value, |answer.value|, now);
                 var items := applied.items + MovedIds(applied.tables, answer.value, |answer.value|, now);
                 var contexts := applied.contexts + MovedContexts(applied.tables, answer.value, |answer.value|, now);
                 after == AfterChunks(Applied(tables, items, contexts), changed,
                                      if |changed| - at < 100 then |changed| else at + 100, fetch, now)
  {
    ChunkIsBounded(changed, at);
  }

  ghost predicate Tells(batch: LibraryChangeBatch, tables: Tables, applied: Applied) {
    tables == applied.tables && Reports(batch, applied.items, applied.contexts)
  }

  lemma MergeReports(a: LibraryChangeBatch, b: LibraryChangeBatch, items: set<string>, contexts: set<string>,
                     moreItems: set<string>, moreContexts: set<string>)
    requires Reports(a, items, contexts) && Reports(b, moreItems, moreContexts)
    ensures Reports(a.Merged(b), items + moreItems, contexts + moreContexts)
  {
    MergeNamesBoth(a, b);
    NormalizedListsTheSet(a.itemIds + b.itemIds);
    NormalizedListsTheSet(a.contextIds + b.contextIds);
  }

  class ShellBridge {
    var sent: seq<Announcement>

    method LibraryChanged(changes: LibraryChangeBatch)
      modifies this
      ensures sent == old(sent) + LibraryNews(changes)
    {
      if changes.itemIds != [] {
        sent := sent + [Announcement.LibraryChanged(changes.itemIds, changes.contextIds)];
      }
    }

    method LiveChanged(itemIds: seq<string>, contextIds: seq<string>)
      modifies this
      ensures sent == old(sent) + LiveNews(itemIds, contextIds)
    {
      if itemIds != [] || contextIds != [] {
        sent := sent + [Announcement.LiveChanged(itemIds, contextIds)];
      }
    }
  }

  /** The session under which the push arrived. It may move on at any time, for good. */
  class Connection {
    var current: bool
    /** No catalog write has failed. */
    var storing: bool

    method IsCurrent() returns (live: bool)
      modifies this`current
      ensures live == current && (current ==> old(current))
    {
      if * {
        current := false;
      }
      live := current;
    }

    method Writes() returns (done: bool)
      modifies this`storing
      ensures if done then storing == old(storing) else !storing
    {
      if * {
        return true;
      }
      storing := false;
      done := false;
    }
  }

  method CommitForget(connection: Connection, catalog: CatalogIndex, itemId: string)
    returns (r: Result<LibraryChangeBatch, ScopedWriteError>)
    modifies connection, catalog
    ensures (connection.current ==> old(connection.current)) && (r == Err(Stale) <==> !connection.current)
    ensures if r == Err(Storage) then !connection.storing else connection.storing == old(connection.storing)
    ensures r.Err? ==> catalog.tables == old(catalog.tables)
    ensures r.Ok? ==> catalog.tables == Deleted(old(catalog.tables), {itemId})
                      && Reports(r.value, DeletedIds(old(catalog.tables), {itemId}),
                                 DeletedContexts(old(catalog.tables), {itemId}))
                      && Covers(r.value, old(catalog.tables), catalog.tables) && r.value.ContextsNeedItems()
  {
    var live := connection.IsCurrent();
    if !live {
      return Err(Stale);
    }
    var stored := connection.Writes();
    if !stored {
      return Err(Storage);
    }
    var changes := catalog.Forget(itemId);
    DeletedContextsNeedItems(old(catalog.tables), {itemId});
    ReportedContextsNeedItems(changes, DeletedIds(old(catalog.tables), {itemId}),
                              DeletedContexts(old(catalog.tables), {itemId}));
    r := Ok(changes);
  }

  method CommitIngest(connection: Connection, catalog: CatalogIndex, dtos: seq<Dto>, now: int)
    returns (r: Result<LibraryChangeBatch, ScopedWriteError>)
    modifies connection, catalog
    ensures (connection.current ==> old(connection.current)) && (r == Err(Stale) <==> !connection.current)
    ensures if r == Err(Storage) then !connection.storing else connection.storing == old(connection.storing)
    ensures r.Err? ==> catalog.tables == old(catalog.tables)
    ensures r.Ok? ==> catalog.tables == Ingested(old(catalog.tables), dtos, |dtos|, now)
                      && Reports(r.value, MovedIds(old(catalog.tables), dtos, |dtos|, now),
                                 MovedContexts(old(catalog.tables), dtos, |dtos|, now))
                      && Covers(r.value, old(catalog.tables), catalog.tables) && r.value.ContextsNeedItems()
  {
    var live := connection.IsCurrent();
    if !live {
      return Err(Stale);
    }
    var stored := connection.Writes();
    if !stored {
      return Err(Storage);
    }
    ghost var before := catalog.tables;
    var changes := catalog.IngestPage(dtos, now);
    forall id | !ItemAgrees(before, catalog.tables, id)
      ensures id in changes.itemIds
    {
      IngestReportsEveryChange(before, dtos, |dtos|, now, id);
    }
    MovedContextsNeedItems(before, dtos, |dtos|, now);
    ReportedContextsNeedItems(changes, MovedIds(before, dtos, |dtos|, now), MovedContexts(before, dtos, |dtos|, now));
    r := Ok(changes);
  }

  lemma ReportedContextsNeedItems(changes: LibraryChangeBatch, items: set<string>, contexts: set<string>)
    requires Reports(changes, items, contexts) && (items == {} ==> contexts == {})
    ensures changes.ContextsNeedItems()
  {
    assert changes.contextIds != [] ==> changes.contextIds[0] in contexts;
    if items != {} {
      var id :| id in items;
      assert id in changes.itemIds;
    }
  }

  /** The removals of a push; not `current` when the session was found to be gone. */
  method ApplyRemovals(connection: Connection, catalog: CatalogIndex, removed: seq<string>)
    returns (batch: LibraryChangeBatch, current: bool)
    modifies connection, catalog
    ensures (connection.current ==> current && old(connection.current)) && (!current ==> !connection.current)
    ensures Covers(batch, old(catalog.tables), catalog.tables) && batch.ContextsNeedItems()
    ensures current && connection.storing ==>
              Tells(batch, catalog.tables, AfterRemovals(Applied(old(catalog.tables), {}, {}), removed, |removed|))
    ensures connection.storing ==> old(connection.storing)
  {
    batch := NO_CHANGES;
    for i := 0 to |removed|
      invariant connection.current ==> old(connection.current)
      invariant connection.storing ==> old(connection.storing)
      invariant Covers(batch, old(catalog.tables), catalog.tables) && batch.ContextsNeedItems()
      invariant connection.storing ==>
                  Tells(batch, catalog.tables, AfterRemovals(Applied(old(catalog.tables), {}, {}), removed, i))
    {
      ghost var between := catalog.tables;
      var r := CommitForget(connection, catalog, removed[i]);
      if r.Ok? {
        MergeCovers(batch, r.value, old(catalog.tables), between, catalog.tables);
        if connection.storing {
          ghost var applied := AfterRemovals(Applied(old(catalog.tables), {}, {}), removed, i);
          MergeReports(batch, r.value, applied.items, applied.contexts,
                       DeletedIds(between, {removed[i]}), DeletedContexts(between, {removed[i]}));
        }
        batch := batch.Merged(r.value);
      } else if r.error == Stale {
        return batch, false;
      }
    }
    current := true;
  }

  /** The changed items, fetched a chunk at a time; a failed fetch leaves the rest to a sync. */
  method ApplyChanged(connection: Connection, catalog: CatalogIndex, changed: seq<string>, start: LibraryChangeBatch,
                      ghost first: Tables, ghost applied: Applied, fetch: seq<string> -> Option<seq<Dto>>, now: int)
    returns (batch: LibraryChangeBatch, current: bool)
    requires start.ContextsNeedItems() && Covers(start, first, catalog.tables)
    requires connection.storing ==> Tells(start, catalog.tables, applied)
    modifies connection, catalog
    ensures (connection.current ==> current && old(connection.current)) && (!current ==> !connection.current)
    ensures batch.ContextsNeedItems() && Covers(batch, first, catalog.tables)
    ensures current && connection.storing ==>
              Tells(batch, catalog.tables, AfterChunks(applied, changed, 0, fetch, now))
    ensures connection.storing ==> old(connection.storing)
  {
    batch := start;
    var at := 0;
    ghost var so := applied;
    while at < |changed|
      invariant batch.ContextsNeedItems() && Covers(batch, first, catalog.tables)
      invariant connection.current ==> old(connection.current)
      invariant connection.storing ==> old(connection.storing)
      invariant connection.storing ==> Tells(batch, catalog.tables, so)
      invariant AfterChunks(so, changed, at, fetch, now) == AfterChunks(applied, changed, 0, fetch, now)
    {
      var chunk := Chunk(changed, at);
      var answer := fetch(chunk);
      if answer.None? {
        return batch, true;
      }
      ghost var between := catalog.tables;
      var r := CommitIngest(connection, catalog, answer.value, now);
      if r.Ok? {
        MergeCovers(batch, r.value, first, between, catalog.tables);
        if connection.storing {
          MergeReports(batch, r.value, so.items, so.contexts,
                       MovedIds(between, answer.value, |answer.value|, now),
                       MovedContexts(between, answer.value, |answer.value|, now));
        }
        batch := batch.Merged(r.value);
      } else if r.error == Stale {
        return batch, false;
      }
      so := Cached(so, answer.value, now);
      at := at + |chunk|;
    }
    current := true;
  }

  /** A push is announced whole unless the session moved on, and applied whole unless it did or a
      write failed. */
  method ApplyLibraryChange(connection: Connection, catalog: CatalogIndex, shell: ShellBridge,
                            change: LibraryChange, fetch: seq<string> -> Option<seq<Dto>>, now: int)
    returns (ghost batch: LibraryChangeBatch, outcome: Outcome)
    modifies connection, catalog, shell
    ensures connection.current ==> outcome == Announced
    ensures Covers(batch, old(catalog.tables), catalog.tables) && batch.ContextsNeedItems()
    ensures shell.sent == old(shell.sent) + match outcome
                                            case Announced => News(batch, change)
                                            case StaleAtTheEnd => LibraryNews(batch)
                                            case Dropped => []
    ensures outcome != Dropped ==> TellsChanges(old(catalog.tables), catalog.tables,
                                                shell.sent[|old(shell.sent)|..])
    ensures outcome != Dropped && connection.storing ==>
              var forgotten := AfterRemovals(Applied(old(catalog.tables), {}, {}), change.removed, |change.removed|);
              Tells(batch, catalog.tables, AfterChunks(forgotten, change.changed, 0, fetch, now))
  {
    ghost var first := catalog.tables;
    var applied, current := ApplyRemovals(connection, catalog, change.removed);
    if current {
      applied, current := ApplyChanged(
        connection, catalog, change.changed, applied, first,
        AfterRemovals(Applied(first, {}, {}), change.removed, |change.removed|), fetch, now);
    }
    batch := applied;
    if !current {
      return batch, Dropped;
    }
    ghost var sent := shell.sent;
    var liveItems := applied.Unnamed(change.changed + change.removed);
    var liveFolders := applied.Unnamed(change.folders);
    if !applied.IsEmpty() {
      shell.LibraryChanged(applied);
    }
    NewsTellsChanges(sent, applied, [], first, catalog.tables);
    assert shell.sent == sent + (LibraryNews(applied) + []);
    if liveItems == [] && liveFolders == [] {
      return batch, Announced;
    }
    current := connection.IsCurrent();
    if !current {
      return batch, StaleAtTheEnd;
    }
    shell.LiveChanged(liveItems, liveFolders);
    NewsTellsChanges(sent, applied, LiveNews(liveItems, liveFolders), first, catalog.tables);
    outcome := Announced;
  }

  // ---- Conservation ----

  /** While the session stays current, the batch is announced whole, items as items and contexts as
      contexts, and of the ids a push mentions exactly the others are announced live: what changed or
      was removed as items, folders as folders. So each is announced, in one of the two places and
      never in both. */
  lemma PushIsConserved(batch: LibraryChangeBatch, change: LibraryChange, id: string)
    requires batch.ContextsNeedItems()
    ensures var news := News(batch, change);
            var told := ToldAsItem(news, id) || ToldAsContext(news, id);
            var live := LiveAsItem(news, id) || LiveAsFolder(news, id);
            && (ToldAsItem(news, id) <==> id in batch.itemIds)
            && (ToldAsContext(news, id) <==> id in batch.contextIds)
            && (LiveAsItem(news, id) <==> (id in change.changed || id in change.removed) && !told)
            && (LiveAsFolder(news, id) <==> id in change.folders && !told)
            && (change.Mentions(id) ==> (told <==> !live)) && (live ==> change.Mentions(id))
  {
    var items, folders := batch.Unnamed(change.changed + change.removed), batch.Unnamed(change.folders);
    UnnamedMembers(batch, change.changed + change.removed, id);
    UnnamedMembers(batch, change.folders, id);
    LibraryNewsTells(batch, id);
    LiveNewsTells(items, folders, id);
    var library, live := LibraryNews(batch), LiveNews(items, folders);
    assert forall a :: a in library + live <==> a in library || a in live;
  }

  /** The invariant the conservation rests on is needed: a batch of contexts alone would be
      announced nowhere. */
  lemma LoneContextsWouldBeLost(context: string)
    ensures var batch := LibraryChangeBatch([], [context]);
            var change := LibraryChange([context], [], []);
            change.Mentions(context) && News(batch, change) == []
  {
    UnnamedMembers(LibraryChangeBatch([], [context]), [context] + [], context);
    var unnamed := LibraryChangeBatch([], [context]).Unnamed([context] + []);
    if unnamed != [] {
      UnnamedMembers(LibraryChangeBatch([], [context]), [context] + [], unnamed[0]);
    }
  }
}
