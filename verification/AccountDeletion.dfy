/** Deleting one account's local data (`src/app/services.rs`, `src/preferences/deletions.rs`): a
    journal entry first, then one store after another, then the journal entry goes. Any write may
    be refused, and the process may end at any point and be started again. */
module AccountDeletion {
  import opened Basics
  import opened AccountSession
  import opened JsonFile
  import opened AccountDocuments
  import opened DeletionRuns

  /** The account-owned data outside the documents and the store: the accounts with rows in the
      three snapshot tables, and the artwork files. */
  class LocalData {
    var snapshots: set<AccountKey>
    var artwork: set<string>

    constructor (snapshots: set<AccountKey>, artwork: set<string>)
      ensures this.snapshots == snapshots && this.artwork == artwork
    {
      this.snapshots, this.artwork := snapshots, artwork;
    }
  }

  function LeftOf(disk: Disk, local: LocalData, library: Library): Remains
    reads disk, local, library
  {
    Remains(disk.files, local.snapshots, library.store)
  }

  /** The document in memory is the one on disk. */
  predicate InStep(schema: Schema, name: Name, memory: seq<Entry>, files: Files<seq<Entry>>) {
    WellKept(schema, name, files) && memory == Memory(schema, name, files)
  }

  ghost predicate AllInStep(schema: Schema, documents: map<Name, seq<Entry>>, files: Documents) {
    forall name: Name :: name in files && name in documents && InStep(schema, name, documents[name], files[name])
  }

  lemma JournalInStep(schema: Schema, documents: map<Name, seq<Entry>>, files: Documents)
    requires IsSchema(schema) && AllInStep(schema, documents, files)
    ensures documents[Journal] == Content(files[Journal])
  {
    assert InStep(schema, Journal, documents[Journal], files[Journal]);
    TidyJournal(schema, Content(files[Journal]));
  }

  lemma OneInStep(schema: Schema, documents: map<Name, seq<Entry>>, files: Documents, name: Name,
                  memory: seq<Entry>, now: Files<seq<Entry>>)
    requires AllInStep(schema, documents, files) && InStep(schema, name, memory, now)
    ensures AllInStep(schema, documents[name := memory], files[name := now])
  {
  }

  lemma CheckedTwice(schema: Schema, name: Name, entries: seq<Entry>)
    requires IsSchema(schema) && Checked(schema, name, entries).Some?
    ensures var checked := Checked(schema, name, entries); Checked(schema, name, checked.value) == checked
  {
    TidiedTwice(schema, name, entries);
  }

  /** A save, cut off anywhere: memory takes the new document over once it is whole. */
  lemma SaveStaysInStep(schema: Schema, documents: map<Name, seq<Entry>>, files: Documents, name: Name,
                        next: seq<Entry>, cut: nat)
    requires IsSchema(schema) && AllInStep(schema, documents, files) && Checked(schema, name, next).Some?
    ensures var checked := Checked(schema, name, next).value;
            var saved := files[name := SavedFiles(files[name], (schema.format.encode)(checked), cut)];
            if cut >= SaveWrites(files[name]) then AllInStep(schema, documents[name := checked], saved)
            else AllInStep(schema, documents, saved)
  {
    var checked := Checked(schema, name, next).value;
    var saved := SavedFiles(files[name], (schema.format.encode)(checked), cut);
    assert InStep(schema, name, documents[name], files[name]);
    CheckedTwice(schema, name, next);
    SaveKeepsFile(schema, name, files[name], checked, cut);
    var memory := if cut >= SaveWrites(files[name]) then checked else documents[name];
    OneInStep(schema, documents, files, name, memory, saved);
    assert documents[name := documents[name]] == documents;
  }

  /** A removal's save, cut off anywhere. */
  lemma RemovalSaves(schema: Schema, documents: map<Name, seq<Entry>>, files: Documents, name: Name,
                     account: AccountKey, cut: nat)
    requires IsSchema(schema) && AllInStep(schema, documents, files)
    ensures var next := Without(documents[name], account);
            var saved := SavedFiles(files[name], (schema.format.encode)(next), cut);
            && Checked(schema, name, next) == Some(next)
            && OnlyRemoves(schema, files, files[name := saved], account)
            && (cut >= SaveWrites(files[name]) ==>
                  BackupReplaced(saved) == Finished(schema, name, files[name], account))
  {
    assert InStep(schema, name, documents[name], files[name]);
    RemovalPasses(schema, name, files[name], account);
    RemovalSteps(schema, name, files[name], account, cut);
    var saved := SavedFiles(files[name], Goal(schema, name, files[name], account), cut);
    OneFileRemoves(schema, files, name, saved, account);
  }

  /** A removal that finished. */
  lemma RemovalFinishes(schema: Schema, documents: map<Name, seq<Entry>>, files: Documents, name: Name,
                        account: AccountKey)
    requires IsSchema(schema) && AllInStep(schema, documents, files)
    ensures var after := files[name := Finished(schema, name, files[name], account)];
            && OnlyRemoves(schema, files, after, account)
            && AllInStep(schema, documents[name := Without(documents[name], account)], after)
  {
    assert InStep(schema, name, documents[name], files[name]);
    FinishedIsWellKept(schema, name, files[name], account);
    FinishedIsScrubbed(schema, name, files[name], account);
    OneFileRemoves(schema, files, name, Finished(schema, name, files[name], account), account);
    OneInStep(schema, documents, files, name, Without(documents[name], account),
              Finished(schema, name, files[name], account));
  }

  /** The three documents hold what a finished removal leaves. */
  ghost predicate AreRemoved(schema: Schema, before: Documents, after: Documents, account: AccountKey)
    requires forall name: Name :: name in before && name in after
  {
    forall name: Name | name != Journal :: after[name] == Finished(schema, name, before[name], account)
  }

  lemma ThreeRemoved(schema: Schema, before: Documents, first: Documents, second: Documents, third: Documents,
                     account: AccountKey)
    requires forall name: Name :: name in before
    requires first == before[Accounts := Finished(schema, Accounts, before[Accounts], account)]
    requires second == first[Collections := Finished(schema, Collections, first[Collections], account)]
    requires third == second[Playback := Finished(schema, Playback, second[Playback], account)]
    ensures AreRemoved(schema, before, third, account)
  {
  }

  lemma RemovedAreScrubbed(schema: Schema, before: Documents, after: Documents, account: AccountKey)
    requires IsSchema(schema) && forall name: Name :: name in before && name in after
    requires AreRemoved(schema, before, after, account)
    ensures Scrubbed(after, account)
  {
    FinishedIsScrubbed(schema, Accounts, before[Accounts], account);
    FinishedIsScrubbed(schema, Collections, before[Collections], account);
    FinishedIsScrubbed(schema, Playback, before[Playback], account);
  }

  /** The rows of the account in all four tables went in one transaction, or nothing did. */
  predicate RowsRemoved(snapshots: set<AccountKey>, store: Store, account: AccountKey, rest: set<AccountKey>,
                        after: Store) {
    || (rest == snapshots && after == store)
    || (rest == snapshots - {account} && after == store.(memberships := store.memberships - {account}))
  }

  lemma RowsAttempt(schema: Schema, before: Remains, after: Remains, account: AccountKey)
    requires IsComplete(before) && IsComplete(after) && OnlyRemoves(schema, before.files, after.files, account)
    requires after.files[Journal] == before.files[Journal]
    requires RowsRemoved(before.snapshots, before.store, account, after.snapshots, after.store)
    ensures Attempts(schema, before, after, account, false)
  {
  }

  lemma ClearingAttempt(schema: Schema, before: Remains, between: Remains, after: Remains, account: AccountKey)
    requires IsComplete(before) && IsComplete(between) && IsComplete(after)
    requires Attempts(schema, before, between, account, false)
    requires after == between.(store := SessionCleared(between.store, true))
    requires between.files[Journal] == before.files[Journal]
    ensures Attempts(schema, before, after, account, true)
  {
  }

  /** Nothing but the journal holds the account any more. */
  ghost predicate HoldersRemoved(schema: Schema, before: Remains, after: Remains, account: AccountKey)
    requires IsComplete(before) && IsComplete(after)
  {
    && AreRemoved(schema, before.files, after.files, account) && after.files[Journal] == before.files[Journal]
    && after.snapshots == before.snapshots - {account}
    && Gone(after, account)
  }

  lemma HoldersGone(schema: Schema, before: Remains, between: Remains, after: Remains, account: AccountKey)
    requires IsSchema(schema) && IsComplete(before) && IsComplete(between) && IsComplete(after)
    requires AreRemoved(schema, before.files, between.files, account) && after.files == between.files
    requires between.files[Journal] == before.files[Journal]
    requires RowsRemoved(before.snapshots, before.store, account, between.snapshots, between.store)
    requires account !in between.snapshots && after.snapshots == between.snapshots
    requires account !in between.store.memberships && !StoredFor(after.store, account)
    requires after.store == between.store || after.store == SessionCleared(between.store, true)
    ensures HoldersRemoved(schema, before, after, account)
  {
    RemovedAreScrubbed(schema, before.files, after.files, account);
  }

  /** The journal goes last. */
  lemma JournalCompletes(schema: Schema, before: View, held: View, after: View, deletion: Entry, ok: bool,
                         cleared: bool)
    requires IsSchema(schema) && Proceeds(schema, before, held, deletion, true, cleared)
    requires HoldersRemoved(schema, before.left, held.left, deletion.key) && IsComplete(after.left)
    requires OnlyJournalChanged(held.left, after.left)
    requires IsTrimmed(schema, Journal, held.left.files[Journal], after.left.files[Journal], deletion.key)
    requires ok ==> after.left.files[Journal] == Finished(schema, Journal, held.left.files[Journal], deletion.key)
    requires after.artwork == held.artwork && after.account == held.account && after.refused == (!ok || held.refused)
    ensures Completes(schema, before, after, deletion, ok, cleared)
  {
    JournalLast(schema, before.left, held.left, after.left.files[Journal], deletion.key, cleared);
    FinishedIsScrubbed(schema, Journal, held.left.files[Journal], deletion.key);
  }

  lemma SetTwice<K, V>(entries: map<K, V>, key: K, first: V, second: V)
    ensures entries[key := first][key := second] == entries[key := second]
  {
  }

  lemma BegunAlone(schema: Schema, before: Remains, begun: Remains, deletion: Entry)
    requires IsSchema(schema) && IsComplete(before) && IsComplete(begun) && Begun(before, begun, deletion)
    ensures RequestKeeps(schema, before, begun, deletion.key, false)
  {
    BeginKeeps(before, begun, deletion, deletion.key);
    forall other | other != deletion.key
      ensures Spared(schema, before, begun, other, false)
    {
      BeginSpares(schema, before, begun, deletion, other);
    }
  }

  /** The custom posters of the account, in the document and in its backup. */
  function ArtworkIds(collections: seq<Entry>, backup: Option<Bytes<seq<Entry>>>, account: AccountKey): seq<string> {
    FirstValues(collections, account) + if Readable(backup) then FirstValues(backup.value.parsed.value, account) else []
  }

  function FirstValues(entries: seq<Entry>, account: AccountKey): seq<string> {
    if Holds(entries, account) then Of(entries, account)[0].values else []
  }

  /** A custom poster of the account: its entry in the document names it, or the first of its entries
      in a readable backup. */
  predicate IsPosterOf(collections: seq<Entry>, backup: Option<Bytes<seq<Entry>>>, account: AccountKey, id: string) {
    || (exists e <- collections :: e.key == account && id in e.values)
    || (backup.Some? && backup.value.parsed.Some? && IsFirstPosterOf(backup.value.parsed.value, account, id))
  }

  predicate IsFirstPosterOf(entries: seq<Entry>, account: AccountKey, id: string) {
    exists k | 0 <= k < |entries| :: entries[k].key == account && id in entries[k].values
                                     && forall j | 0 <= j < k :: entries[j].key != account
  }

  lemma FirstPosters(entries: seq<Entry>, account: AccountKey, id: string)
    ensures id in FirstValues(entries, account) <==> IsFirstPosterOf(entries, account, id)
  {
    if k :| 0 <= k < |entries| && entries[k].key == account && forall j | 0 <= j < k :: entries[j].key != account {
      FirstOf(entries, account, k);
    } else if Of(entries, account) != [] {
      var k := FirstIndex(entries, account);
    }
  }

  lemma {:induction false} FirstIndex(entries: seq<Entry>, account: AccountKey) returns (k: nat)
    requires Of(entries, account) != []
    ensures k < |entries| && entries[k].key == account && forall j | 0 <= j < k :: entries[j].key != account
  {
    k := 0;
    if entries[0].key != account {
      k := FirstIndex(entries[1..], account);
      k := k + 1;
      assert forall j | 0 < j < |entries| :: entries[j] == entries[1..][j - 1];
    }
  }

  /** The recorded ids are exactly those posters, where the document has no account twice. */
  lemma ArtworkIdsArePosters(collections: seq<Entry>, backup: Option<Bytes<seq<Entry>>>, account: AccountKey,
                             id: string)
    requires Distinct(collections)
    ensures id in ArtworkIds(collections, backup, account) <==> IsPosterOf(collections, backup, account, id)
  {
    FirstPosters(collections, account, id);
    if Readable(backup) {
      FirstPosters(backup.value.parsed.value, account, id);
    }
    if e :| e in collections && e.key == account && id in e.values {
      OnlyOf(collections, account, e);
    }
  }

  /** What a request does with the account's posters, and with no other artwork. Where nothing is
      refused it ends exactly if all their ids are well formed, and else the journal lists them. */
  ghost predicate PostersGo(collections: seq<Entry>, backup: Option<Bytes<seq<Entry>>>, account: AccountKey,
                            before: View, after: View, ok: bool)
  {
    && (forall id | ok && IsPosterOf(collections, backup, account, id) :: id !in after.artwork)
    && after.artwork <= before.artwork
    && (forall id <- before.artwork :: id in after.artwork || IsPosterOf(collections, backup, account, id))
    && (!after.refused ==>
          && (ok <==> forall id | IsPosterOf(collections, backup, account, id) :: IsOpaqueId(id))
          && (!ok ==> IsComplete(after.left) && exists e <- Listed(after.left, account) ::
                        ListsPosters(collections, backup, account, e.values)))
  }

  ghost predicate ListsPosters(collections: seq<Entry>, backup: Option<Bytes<seq<Entry>>>, account: AccountKey,
                               ids: seq<string>)
  {
    forall id :: id in ids <==> IsPosterOf(collections, backup, account, id)
  }

  lemma RequestTakesPosters(collections: seq<Entry>, backup: Option<Bytes<seq<Entry>>>, account: AccountKey,
                            journal: seq<Entry>, before: View, after: View, ok: bool)
    requires Distinct(collections) && IsComplete(after.left)
    requires var ids := ArtworkIds(collections, backup, account);
             && before.artwork - (set id <- ids) <= after.artwork <= before.artwork
             && (ok ==> after.artwork !! (set id <- ids))
             && (!after.refused ==>
                   && (ok <==> AreOpaque(ids))
                   && (!ok ==> Content(after.left.files[Journal]) == With(journal, Entry(account, ids))))
    ensures PostersGo(collections, backup, account, before, after, ok)
  {
    var ids := ArtworkIds(collections, backup, account);
    forall id
      ensures id in ids <==> IsPosterOf(collections, backup, account, id)
    {
      ArtworkIdsArePosters(collections, backup, account, id);
    }
    assert ListsPosters(collections, backup, account, ids);
    WithOf(journal, Entry(account, ids), account);
    assert !ok && !after.refused ==> Entry(account, ids) in Listed(after.left, account);
    assert AreOpaque(ids) <==> forall id | IsPosterOf(collections, backup, account, id) :: IsOpaqueId(id);
  }

  lemma ScrubbedHasNoArtwork(schema: Schema, name: Name, files: Files<seq<Entry>>, account: AccountKey)
    requires IsSchema(schema) && !Keeps(files, account)
    ensures ArtworkIds(Memory(schema, name, files), files.backup, account) == []
  {
    TidiedOf(schema, name, Content(files), account);
  }

  lemma ScrubbedHasNoIds(schema: Schema, documents: map<Name, seq<Entry>>, files: Documents, account: AccountKey)
    requires IsSchema(schema) && AllInStep(schema, documents, files)
    ensures Scrubbed(files, account) ==>
              ArtworkIds(documents[Collections], files[Collections].backup, account) == []
  {
    if Scrubbed(files, account) {
      assert InStep(schema, Collections, documents[Collections], files[Collections]);
      ScrubbedHasNoArtwork(schema, Collections, files[Collections], account);
    }
  }

  // ---- One process ----

  class Services {
    const disk: Disk
    const local: LocalData
    const session: Session
    const schema: Schema
    /** The documents in memory; each is saved before it is swapped in. */
    var documents: map<Name, seq<Entry>>

    ghost predicate Valid()
      reads this, disk, session, session.library
    {
      && disk.format == schema.format && IsSchema(schema)
      && AllInStep(schema, documents, disk.files)
      && SessionFollowsStore()
    }

    /** While the store names an account, the session in memory is that account's. */
    ghost predicate SessionFollowsStore()
      reads session, session.library
    {
      var stored := session.library.store.credentials.Account();
      stored.Some? ==> session.state.serverId == Some(stored.value.0) && session.state.userId == Some(stored.value.1)
    }

    function Left(): Remains
      reads disk, local, session.library
    {
      LeftOf(disk, local, session.library)
    }

    ghost function Current(): View
      reads disk, local, session, session.library
    {
      View(Left(), local.artwork, session.state.Account(), disk.refused)
    }

    constructor (disk: Disk, local: LocalData, library: Library, schema: Schema, documents: map<Name, seq<Entry>>)
      ensures this.disk == disk && this.local == local && this.schema == schema && this.documents == documents
      ensures fresh(session) && session.library == library && session.View() == Started(library.store)
    {
      this.disk, this.local, this.schema, this.documents := disk, local, schema, documents;
      session := new Session.Restore(library);
    }

    /** `mutate` of every service: check the next document, save it, then swap it in. */
    method Replace(name: Name, next: seq<Entry>) returns (ok: bool, ghost cut: nat)
      requires Valid()
      modifies this, disk
      ensures Valid()
      ensures var checked := Checked(schema, name, next);
              if checked.None? then !ok && documents == old(documents) && disk.files == old(disk.files)
              else
                && (ok <==> cut >= SaveWrites(old(disk.files[name]))) && (ok || disk.refused)
                && documents == (if ok then old(documents)[name := checked.value] else old(documents))
                && disk.files == old(disk.files)[name := SavedFiles(old(disk.files[name]),
                                                                    (schema.format.encode)(checked.value), cut)]
      ensures (ok ==> disk.refused == old(disk.refused)) && (old(disk.refused) ==> disk.refused)
    {
      var checked := Checked(schema, name, next);
      if checked.None? {
        return false, 0;
      }
      ghost var before, memory := disk.files, documents;
      ok, cut := disk.SaveWithBackup(name, checked.value);
      SaveStaysInStep(schema, memory, before, name, next, cut);
      if ok {
        documents := documents[name := checked.value];
      }
    }

    method Begin(deletion: Entry) returns (ok: bool)
      requires Valid()
      modifies this, disk
      ensures Valid()
      ensures var was := old(documents[Journal]); documents[Journal] == if ok then With(was, deletion) else was
      ensures Begun(old(Left()), Left(), deletion)
      ensures ok ==> Content(disk.files[Journal]) == With(old(Content(disk.files[Journal])), deletion)
      ensures disk.refused == (!ok || old(disk.refused))
    {
      ghost var before := disk.files;
      TidyJournal(schema, Content(before[Journal]));
      TidyJournal(schema, With(documents[Journal], deletion));
      ghost var cut;
      ok, cut := Replace(Journal, With(documents[Journal], deletion));
      TidyJournal(schema, Content(disk.files[Journal]));
    }

    /** The check before the save never refuses this. */
    method SaveWithout(name: Name, account: AccountKey) returns (ok: bool)
      requires Valid()
      modifies this, disk
      ensures Valid() && OnlyRemoves(schema, old(disk.files), disk.files, account)
      ensures disk.files == old(disk.files)[name := disk.files[name]]
      ensures ok ==> BackupReplaced(disk.files[name]) == Finished(schema, name, old(disk.files[name]), account)
      ensures documents == if ok then old(documents)[name := Without(old(documents[name]), account)] else old(documents)
      ensures disk.refused == (!ok || old(disk.refused))
    {
      ghost var before, memory := disk.files, documents;
      RemovalSaves(schema, memory, before, name, account, 0);
      ghost var cut;
      ok, cut := Replace(name, Without(documents[name], account));
      RemovalSaves(schema, memory, before, name, account, cut);
    }

    /** Saves the document without the account, then scrubs the backup, which the save has just
        filled with the old one. */
    method RemoveAccount(name: Name, account: AccountKey) returns (ok: bool)
      requires Valid()
      modifies this, disk
      ensures Valid() && OnlyRemoves(schema, old(disk.files), disk.files, account)
      ensures disk.files == old(disk.files)[name := disk.files[name]]
      ensures ok ==> disk.files[name] == Finished(schema, name, old(disk.files[name]), account)
      ensures disk.refused == (!ok || old(disk.refused))
    {
      ghost var before, memory := disk.files, documents;
      ok := SaveWithout(name, account);
      if ok {
        ghost var saved := disk.files[name];
        SetTwice(before, name, saved, Finished(schema, name, before[name], account));
        RemovalFinishes(schema, memory, before, name, account);
        ok := disk.ReplaceBackupWithPrimary(name);
      }
    }

    method RemoveDocuments(account: AccountKey) returns (ok: bool)
      requires Valid()
      modifies this, disk
      ensures Valid() && OnlyRemoves(schema, old(disk.files), disk.files, account)
      ensures disk.files[Journal] == old(disk.files[Journal])
      ensures ok ==> AreRemoved(schema, old(disk.files), disk.files, account)
      ensures disk.refused == (!ok || old(disk.refused))
    {
      ghost var before := disk.files;
      ok := RemoveAccount(Accounts, account);
      if !ok {
        return;
      }
      ghost var first := disk.files;
      ok := RemoveAccount(Collections, account);
      ghost var second := disk.files;
      RemovalsCompose(schema, before, first, second, account);
      if !ok {
        return;
      }
      ok := RemoveAccount(Playback, account);
      RemovalsCompose(schema, before, second, disk.files, account);
      if ok {
        ThreeRemoved(schema, before, first, second, disk.files, account);
      }
    }

    /** One transaction for the snapshot and membership rows, then one artwork file after another.
        The artwork store refuses an id it could not have issued, whatever the disk does. */
    method RemoveLocalData(deletion: Entry) returns (ok: bool)
      modifies disk`refused, local, session.library
      ensures RowsRemoved(old(local.snapshots), old(session.library.store), deletion.key, local.snapshots,
                          session.library.store)
      ensures old(local.artwork) - (set id <- deletion.values) <= local.artwork <= old(local.artwork)
      ensures ok ==> deletion.key !in local.snapshots && deletion.key !in session.library.store.memberships
      ensures ok ==> local.artwork !! (set id <- deletion.values)
      ensures if ok then AreOpaque(deletion.values) else disk.refused || !AreOpaque(deletion.values)
      ensures (ok ==> disk.refused == old(disk.refused)) && (old(disk.refused) ==> disk.refused)
    {
      ok := disk.Write();
      if !ok {
        return;
      }
      var store := session.library.store;
      local.snapshots := local.snapshots - {deletion.key};
      session.library.store := store.(memberships := store.memberships - {deletion.key});
      for i := 0 to |deletion.values|
        invariant old(local.artwork) - (set id <- deletion.values) <= local.artwork <= old(local.artwork)
        invariant local.snapshots == old(local.snapshots) - {deletion.key} && disk.refused == old(disk.refused)
        invariant session.library.store == store.(memberships := store.memberships - {deletion.key})
        invariant forall j | 0 <= j < i :: IsOpaqueId(deletion.values[j]) && deletion.values[j] !in local.artwork
      {
        if !IsOpaqueId(deletion.values[i]) {
          return false;
        }
        ok := disk.Write();
        if !ok {
          return;
        }
        local.artwork := local.artwork - {deletion.values[i]};
      }
      ok := true;
    }

    /** Only a session of this very account is cleared, with the library it was signed in to. */
    method EndSession(account: AccountKey) returns (ok: bool, ghost cleared: bool)
      requires Valid()
      modifies disk`refused, session, session.library
      ensures Valid() && (ok ==> !StoredFor(session.library.store, account))
      ensures if cleared then old(session.state.Account()) == Some(account) && session.state.Account().None?
                              && session.library.store == SessionCleared(old(session.library.store), true)
              else session.state == old(session.state) && session.library.store == old(session.library.store)
      ensures ok && old(session.state.Account()) == Some(account) ==> cleared
      ensures disk.refused == (!ok || old(disk.refused))
    {
      ok, cleared := true, false;
      if session.state.Account() == Some(account) {
        ok := disk.Write();
        var emptied := session.ClearLocal(true, !ok);
        cleared := emptied;
        if !emptied {
          return;
        }
        ok := disk.Write();
      }
    }

    method RemoveData(deletion: Entry) returns (ok: bool)
      requires Valid()
      modifies this, disk, local, session.library
      ensures Valid() && disk.files[Journal] == old(disk.files[Journal])
      ensures OnlyRemoves(schema, old(disk.files), disk.files, deletion.key)
      ensures RowsRemoved(old(local.snapshots), old(session.library.store), deletion.key, local.snapshots,
                          session.library.store)
      ensures ok || !disk.refused ==> AreRemoved(schema, old(disk.files), disk.files, deletion.key)
      ensures ok ==> deletion.key !in local.snapshots && deletion.key !in session.library.store.memberships
      ensures if ok then AreOpaque(deletion.values) else disk.refused || !AreOpaque(deletion.values)
      ensures (ok ==> disk.refused == old(disk.refused)) && (old(disk.refused) ==> disk.refused)
      ensures old(local.artwork) - (set id <- deletion.values) <= local.artwork <= old(local.artwork)
      ensures ok ==> local.artwork !! (set id <- deletion.values)
    {
      ok := RemoveDocuments(deletion.key);
      if ok {
        ok := RemoveLocalData(deletion);
      }
    }

    /** Everything that holds the account, except the journal. */
    method RemoveHolders(deletion: Entry) returns (ok: bool, ghost cleared: bool)
      requires Valid()
      modifies this, disk, local, session, session.library
      ensures Valid() && disk.files[Journal] == old(disk.files[Journal])
      ensures Proceeds(schema, old(Current()), Current(), deletion, ok, cleared)
      ensures ok ==> HoldersRemoved(schema, old(Left()), Left(), deletion.key)
      ensures !cleared ==> session.state == old(session.state)
    {
      cleared := false;
      ghost var before := Left();
      ok := RemoveData(deletion);
      ghost var between := Left();
      RowsAttempt(schema, before, between, deletion.key);
      if ok || !disk.refused {
        RemovedAreScrubbed(schema, before.files, disk.files, deletion.key);
      }
      if !ok {
        return;
      }
      ok, cleared := EndSession(deletion.key);
      if cleared {
        ClearingAttempt(schema, before, between, Left(), deletion.key);
      }
      if ok {
        HoldersGone(schema, before, between, Left(), deletion.key);
      }
    }

    /** `finish` of the journal. */
    method Finish(account: AccountKey) returns (ok: bool)
      requires Valid()
      modifies this, disk
      ensures Valid() && OnlyJournalChanged(old(Left()), Left())
      ensures IsTrimmed(schema, Journal, old(disk.files[Journal]), disk.files[Journal], account)
      ensures ok ==> disk.files[Journal] == Finished(schema, Journal, old(disk.files[Journal]), account)
      ensures disk.refused == (!ok || old(disk.refused))
    {
      ok := RemoveAccount(Journal, account);
    }

    method CompletePendingDeletion(deletion: Entry) returns (ok: bool, ghost cleared: bool)
      requires Valid()
      modifies this, disk, local, session, session.library
      ensures Valid() && Completes(schema, old(Current()), Current(), deletion, ok, cleared)
      ensures !cleared ==> session.state == old(session.state)
    {
      ghost var before := Current();
      ok, cleared := RemoveHolders(deletion);
      if ok {
        ghost var held := Current();
        ok := Finish(deletion.key);
        JournalCompletes(schema, before, held, Current(), deletion, ok, cleared);
      }
    }

    /** The deletion a user asks for: of the signed-in account, with the artwork it then owns. */
    method DeleteLocalAccountData() returns (ok: bool, ghost cleared: bool)
      requires Valid()
      modifies this, disk, local, session, session.library
      ensures Valid()
      ensures old(session.state.Account()).None? ==> !ok && Left() == old(Left()) && disk.refused == old(disk.refused)
      ensures var account := old(session.state.Account());
              account.Some? ==>
                && RequestKeeps(schema, old(Left()), Left(), account.value, cleared)
                && var ids :=
                  ArtworkIds(old(documents[Collections]), old(disk.files[Collections].backup), account.value);
                && (ok ==> IsDone(Left(), account.value) && cleared && local.artwork !! (set id <- ids))
                && old(local.artwork) - (set id <- ids) <= local.artwork <= old(local.artwork)
                && PostersGo(old(documents[Collections]), old(disk.files[Collections].backup), account.value,
                             old(Current()), Current(), ok)
                && (!disk.refused ==>
                      && Scrubbed(disk.files, account.value) && Settled(Left(), account.value)
                      && (ok <==> AreOpaque(ids)) && (cleared <==> AreOpaque(ids))
                      && (!ok ==> session.state.Account() == account
                                  && Content(disk.files[Journal])
                                     == With(old(Content(disk.files[Journal])), Entry(account.value, ids))))
      ensures old(disk.refused) ==> disk.refused
    {
      cleared := false;
      var account := session.state.Account();
      if account.None? {
        return false, false;
      }
      ghost var before, was, collections := Left(), Current(), documents[Collections];
      assert InStep(schema, Collections, collections, before.files[Collections]);
      var artworkIds := ArtworkIds(documents[Collections], disk.files[Collections].backup, account.value);
      var deletion := Entry(account.value, artworkIds);
      ok := Begin(deletion);
      ghost var begun := Left();
      BegunAlone(schema, before, begun, deletion);
      if ok {
        var marked := session.BeginAccountDeletion(account.value);
        ok, cleared := CompletePendingDeletion(deletion);
        BegunThenAttempted(schema, before, begun, Left(), deletion, cleared);
      }
      RequestTakesPosters(collections, before.files[Collections].backup, account.value,
                          Content(before.files[Journal]), was, Current(), ok);
    }

    /** The next recorded deletion is tried. */
    method ResumeNext(deletion: Entry, ghost start: View, ghost pending: seq<Entry>, ghost attempts: seq<Attempt>)
      returns (ghost longer: seq<Attempt>)
      requires Valid() && IsResumption(schema, start, pending, attempts) && Current() == End(start, attempts)
      requires |attempts| < |pending| && deletion == pending[|attempts|]
      modifies this, disk, local, session, session.library
      ensures Valid() && IsResumption(schema, start, pending, longer) && Current() == End(start, longer)
      ensures |longer| == |attempts| + 1
    {
      var marked := session.BeginAccountDeletion(deletion.key);
      ghost var cleared;
      var ok;
      ok, cleared := CompletePendingDeletion(deletion);
      ghost var attempt := Attempt(ok, cleared, Current());
      ResumptionExtends(schema, start, pending, attempts, attempt);
      longer := attempts + [attempt];
    }

    /** What every start does first: each recorded deletion is tried, whatever became of the ones
        before it. */
    method ResumePendingDeletions() returns (ghost attempts: seq<Attempt>)
      requires Valid()
      modifies this, disk, local, session, session.library
      ensures Valid() && |attempts| == |Content(old(disk.files[Journal]))|
      ensures IsResumption(schema, old(Current()), Content(old(disk.files[Journal])), attempts)
      ensures Current() == End(old(Current()), attempts)
      ensures attempts == [] ==> session.state == old(session.state)
    {
      JournalInStep(schema, documents, disk.files);
      ghost var start := Current();
      attempts := [];
      var pending := documents[Journal];
      for i := 0 to |pending|
        invariant Valid() && |attempts| == i && IsResumption(schema, start, pending, attempts)
        invariant Current() == End(start, attempts)
        invariant i == 0 ==> session.state == old(session.state)
      {
        attempts := ResumeNext(pending[i], start, pending, attempts);
      }
    }

    method SignIn(serverUrl: string, credentials: Credentials, faults: Faults)
      requires Valid()
      modifies session, session.library
      ensures Valid()
      ensures forall other: AccountKey | (other.serverId, other.userId) != (credentials.serverId, credentials.userId)
                                         && !old(StoredFor(session.library.store, other))
                :: !StoredFor(session.library.store, other)
      ensures session.library.store.memberships <= old(session.library.store.memberships)
    {
      var r := session.CommitCredentials(serverUrl, credentials, faults);
    }
  }

  // ---- Many processes ----

  ghost predicate AllCanOpen(schema: Schema, files: Documents) {
    forall name: Name :: name in files && CanOpen(schema, name, files[name])
  }

  ghost predicate AllOpened(schema: Schema, before: Documents, after: Documents, documents: map<Name, seq<Entry>>) {
    forall name: Name :: name in before && name in after && name in documents
                         && IsOpened(schema, name, before[name], after[name], documents[name])
  }

  lemma FourOpened(schema: Schema, before: Documents, after: Documents, documents: map<Name, seq<Entry>>)
    requires forall name: Name :: name in before && name in after
    requires documents.Keys == {Accounts, Collections, Playback, Journal}
    requires IsOpened(schema, Accounts, before[Accounts], after[Accounts], documents[Accounts])
    requires IsOpened(schema, Collections, before[Collections], after[Collections], documents[Collections])
    requires IsOpened(schema, Playback, before[Playback], after[Playback], documents[Playback])
    requires IsOpened(schema, Journal, before[Journal], after[Journal], documents[Journal])
    ensures AllOpened(schema, before, after, documents)
  {
    forall name: Name
      ensures name in documents && IsOpened(schema, name, before[name], after[name], documents[name])
    {
      match name
      case Accounts | Collections | Playback | Journal =>
    }
  }

  lemma OpenedIsInStep(schema: Schema, before: Documents, after: Documents, documents: map<Name, seq<Entry>>)
    requires AllOpened(schema, before, after, documents)
    ensures AllCanOpen(schema, before) && AllInStep(schema, documents, after)
  {
    forall name: Name
      ensures CanOpen(schema, name, before[name]) && InStep(schema, name, documents[name], after[name])
    {
      assert IsOpened(schema, name, before[name], after[name], documents[name]);
    }
  }

  ghost predicate AllWellKept(schema: Schema, files: Documents) {
    forall name: Name :: name in files && WellKept(schema, name, files[name])
  }

  lemma WellKeptStays(schema: Schema, before: Documents, after: Documents, documents: map<Name, seq<Entry>>)
    requires AllWellKept(schema, before) && AllOpened(schema, before, after, documents)
    ensures after == before
  {
    assert after.Keys == before.Keys;
    forall name: Name
      ensures after[name] == before[name]
    {
      WellKeptOpens(schema, name, before[name]);
      assert IsOpened(schema, name, before[name], after[name], documents[name]);
    }
  }

  /** Opens the documents one after another. A start fails if a write is refused or some document is
      of another version or does not pass. */
  method OpenDocuments(disk: Disk, schema: Schema) returns (documents: Option<map<Name, seq<Entry>>>)
    requires disk.format == schema.format && IsSchema(schema) && forall name: Name :: name in disk.files
    modifies disk
    ensures forall name: Name :: name in disk.files
    ensures documents.Some? ==>
              AllOpened(schema, old(disk.files), disk.files, documents.value) && disk.refused == old(disk.refused)
    ensures documents.None? ==> !AllWellKept(schema, old(disk.files))
                                && (disk.refused || !AllCanOpen(schema, old(disk.files)))
  {
    ghost var before := disk.files;
    var accounts := OpenDocument(disk, schema, Accounts);
    if accounts.None? {
      return None;
    }
    var collections := OpenDocument(disk, schema, Collections);
    if collections.None? {
      return None;
    }
    var playback := OpenDocument(disk, schema, Playback);
    if playback.None? {
      return None;
    }
    var journal := OpenDocument(disk, schema, Journal);
    if journal.None? {
      return None;
    }
    var all := map[Accounts := accounts.value, Collections := collections.value, Playback := playback.value,
                   Journal := journal.value];
    FourOpened(schema, before, disk.files, all);
    documents := Some(all);
  }

  method Start(disk: Disk, local: LocalData, library: Library, schema: Schema) returns (services: Option<Services>)
    requires disk.format == schema.format && IsSchema(schema) && forall name: Name :: name in disk.files
    modifies disk
    ensures forall name: Name :: name in disk.files
    ensures services.Some? ==>
              && fresh(services.value) && fresh(services.value.session)
              && services.value.disk == disk && services.value.local == local && services.value.schema == schema
              && services.value.session.library == library && services.value.session.View() == Started(library.store)
              && services.value.Valid() && !disk.refused
              && AllOpened(schema, old(disk.files), disk.files, services.value.documents)
    ensures services.None? ==> !AllWellKept(schema, old(disk.files))
                               && (disk.refused || !AllCanOpen(schema, old(disk.files)))
  {
    disk.refused := false;
    var documents := OpenDocuments(disk, schema);
    if documents.None? {
      return None;
    }
    OpenedIsInStep(schema, old(disk.files), disk.files, documents.value);
    var started := new Services(disk, local, library, schema, documents.value);
    services := Some(started);
  }

  ghost predicate InOrder(schema: Schema, disk: Disk)
    reads disk
  {
    disk.format == schema.format && IsSchema(schema) && AllWellKept(schema, disk.files)
  }

  lemma InStepIsWellKept(schema: Schema, documents: map<Name, seq<Entry>>, files: Documents)
    requires AllInStep(schema, documents, files)
    ensures AllWellKept(schema, files)
  {
    forall name: Name
      ensures name in files && WellKept(schema, name, files[name])
    {
      assert InStep(schema, name, documents[name], files[name]);
    }
  }

  /** Starts, resumes what is recorded, and may be cut off anywhere. */
  method StartAndResume(disk: Disk, local: LocalData, library: Library, schema: Schema, ghost origin: Remains,
                        ghost account: AccountKey)
    returns (services: Services)
    requires InOrder(schema, disk) && IsComplete(origin)
    requires IsSafe(schema, origin, LeftOf(disk, local, library), account)
    modifies disk, local, library
    ensures fresh(services) && fresh(services.session) && services.Valid() && services.schema == schema
    ensures services.disk == disk && services.local == local && services.session.library == library
    ensures IsSafe(schema, origin, services.Left(), account)
    ensures old(Settled(LeftOf(disk, local, library), account)) ==> Settled(services.Left(), account)
    ensures !disk.refused ==> IsCleanedUp(services.Left(), account)
  {
    ghost var before := disk.files;
    var started := Start(disk, local, library, schema);
    services := started.value;
    WellKeptStays(schema, before, disk.files, services.documents);
    ghost var start := services.Current();
    ghost var attempts := services.ResumePendingDeletions();
    ResumptionStaysSafe(schema, origin, start, attempts, account);
  }

  /** A deletion of whatever is signed in. */
  method RequestDeletion(services: Services, ghost origin: Remains, ghost account: AccountKey)
    requires services.Valid() && IsComplete(origin) && IsSafe(services.schema, origin, services.Left(), account)
    modifies services, services.disk, services.local, services.session, services.session.library
    ensures services.Valid() && IsSafe(services.schema, origin, services.Left(), account)
    ensures old(Settled(services.Left(), account)) ==> Settled(services.Left(), account)
    ensures old(IsCleanedUp(services.Left(), account)) && !services.disk.refused ==>
              Settled(services.Left(), account) ==> IsHandled(services.Left(), account)
    ensures old(services.disk.refused) ==> services.disk.refused
  {
    ghost var before, requester := services.Left(), services.session.state.Account();
    ghost var ids :=
      ArtworkIds(services.documents[Collections], before.files[Collections].backup, account);
    ScrubbedHasNoIds(services.schema, services.documents, before.files, account);
    ghost var cleared;
    var ok;
    ok, cleared := services.DeleteLocalAccountData();
    if requester == Some(account) {
      RequestStaysSafe(services.schema, origin, before, services.Left(), account, cleared);
      if IsCleanedUp(before, account) && !services.disk.refused {
        RequestHandles(before, services.Left(), Entry(account, ids), ok);
      }
    } else if requester.Some? {
      SparedStaysSafe(services.schema, origin, before, services.Left(), account, cleared);
    }
  }

  /** A malformed artwork id stops a deletion only once: asked for again, it finds no ids and gets to
      its end. */
  method RequestTwice(services: Services) returns (ok: bool)
    requires services.Valid() && services.session.state.Account().Some?
    modifies services, services.disk, services.local, services.session, services.session.library
    ensures services.Valid()
    ensures ok ==> IsDone(services.Left(), old(services.session.state.Account()).value)
    ensures ok || services.disk.refused
  {
    ghost var account := services.session.state.Account().value;
    ghost var cleared;
    ok, cleared := services.DeleteLocalAccountData();
    if !ok && !services.disk.refused {
      ScrubbedHasNoIds(services.schema, services.documents, services.disk.files, account);
      ok, cleared := services.DeleteLocalAccountData();
    }
  }

  /** Perhaps a sign-in: as any account, but not again as one that is listed or gone. */
  method SignInSomebody(services: Services, ghost origin: Remains, account: AccountKey)
    requires services.Valid() && IsComplete(origin) && IsSafe(services.schema, origin, services.Left(), account)
    modifies services.session, services.session.library
    ensures services.Valid() && IsSafe(services.schema, origin, services.Left(), account)
    ensures old(Settled(services.Left(), account)) ==> Settled(services.Left(), account)
    ensures old(IsCleanedUp(services.Left(), account)) ==> IsCleanedUp(services.Left(), account)
  {
    ghost var before := services.Left();
    var serverUrl, credentials: Credentials, faults := *, *, *;
    if (credentials.serverId, credentials.userId) != (account.serverId, account.userId)
       || !Settled(services.Left(), account)
    {
      services.SignIn(serverUrl, credentials, faults);
      SignInStaysSafe(services.schema, origin, before, services.Left(), account);
    }
  }

  /** One process, cut off anywhere: resuming first, then perhaps signing in, and deleting whatever is
      signed in. */
  method Lifetime(disk: Disk, local: LocalData, library: Library, schema: Schema, ghost origin: Remains,
                  account: AccountKey)
    requires InOrder(schema, disk) && IsComplete(origin)
    requires IsSafe(schema, origin, LeftOf(disk, local, library), account)
    modifies disk, local, library
    ensures InOrder(schema, disk) && IsSafe(schema, origin, LeftOf(disk, local, library), account)
    ensures old(Settled(LeftOf(disk, local, library), account)) ==> Settled(LeftOf(disk, local, library), account)
    ensures !disk.refused && Settled(LeftOf(disk, local, library), account) ==>
              IsHandled(LeftOf(disk, local, library), account)
  {
    var services := StartAndResume(disk, local, library, schema, origin, account);
    SignInSomebody(services, origin, account);
    RequestDeletion(services, origin, account);
    InStepIsWellKept(schema, services.documents, disk.files);
  }

  /** Over any number of processes, cut off anywhere, every account is at the end of each of them
      listed, or gone, or has all that it had at first; and once listed or gone it stays so. After a
      last process that the disk refuses nothing, it is not listed any more unless with malformed
      artwork ids only. */
  method Lifetimes(disk: Disk, local: LocalData, library: Library, schema: Schema, starts: nat, account: AccountKey)
    requires InOrder(schema, disk)
    modifies disk, local, library
    ensures InOrder(schema, disk)
    ensures IsSafe(schema, old(LeftOf(disk, local, library)), LeftOf(disk, local, library), account)
    ensures old(Settled(LeftOf(disk, local, library), account)) ==> Settled(LeftOf(disk, local, library), account)
    ensures starts > 0 && !disk.refused && Settled(LeftOf(disk, local, library), account) ==>
              IsHandled(LeftOf(disk, local, library), account)
  {
    ghost var origin := LeftOf(disk, local, library);
    for start := 0 to starts
      invariant InOrder(schema, disk) && IsSafe(schema, origin, LeftOf(disk, local, library), account)
      invariant Settled(origin, account) ==> Settled(LeftOf(disk, local, library), account)
      invariant start > 0 && !disk.refused && Settled(LeftOf(disk, local, library), account) ==>
                  IsHandled(LeftOf(disk, local, library), account)
    {
      Lifetime(disk, local, library, schema, origin, account);
    }
  }
}
