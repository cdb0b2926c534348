/** The documents an account's deletion goes through: lists of entries by account, each in a file
    with a backup (`src/preferences/accounts.rs`, `collections.rs`, `playback.rs`, `deletions.rs`). */
module AccountDocuments {
  import opened Basics
  import opened AccountSession
  import opened JsonFile

  /** One account's part of a document. In the journal the values are artwork ids, in
      `collections.json` the ids of custom posters. */
  datatype Entry = Entry(key: AccountKey, values: seq<string>)

  /** The deletion journal, `accounts.json`, `collections.json` and `playback-preferences.json`. */
  datatype Name = Journal | Accounts | Collections | Playback

  type Disk = FileSystem<Name, seq<Entry>>

  // ---- Lists of entries ----

  /** The account's entries, in order. */
  function Of(entries: seq<Entry>, account: AccountKey): seq<Entry> {
    if entries == [] then []
    else if entries[0].key == account then [entries[0]] + Of(entries[1..], account)
    else Of(entries[1..], account)
  }

  predicate Holds(entries: seq<Entry>, account: AccountKey) { Of(entries, account) != [] }

  /** No account twice. */
  predicate Distinct(entries: seq<Entry>) {
    entries == [] || (!Holds(entries[1..], entries[0].key) && Distinct(entries[1..]))
  }

  /** `retain(|entry| entry.key != account)`. */
  function Without(entries: seq<Entry>, account: AccountKey): seq<Entry> {
    if entries == [] then []
    else if entries[0].key == account then Without(entries[1..], account)
    else [entries[0]] + Without(entries[1..], account)
  }

  /** An entry already there is replaced, any other is appended. */
  function With(entries: seq<Entry>, entry: Entry): seq<Entry> {
    if entries == [] then [entry]
    else if entries[0].key == entry.key then [entry] + entries[1..]
    else [entries[0]] + With(entries[1..], entry)
  }

  lemma {:induction false} WithoutOf(entries: seq<Entry>, account: AccountKey, other: AccountKey)
    ensures Of(Without(entries, account), other) == if other == account then [] else Of(entries, other)
  {
    if entries != [] {
      WithoutOf(entries[1..], account, other);
    }
  }

  lemma {:induction false} WithOf(entries: seq<Entry>, entry: Entry, other: AccountKey)
    ensures other != entry.key ==> Of(With(entries, entry), other) == Of(entries, other)
    ensures entry in Of(With(entries, entry), entry.key)
  {
    if entries != [] && entries[0].key != entry.key {
      WithOf(entries[1..], entry, other);
    }
  }

  /** Beginning and finishing deletions keep the journal's accounts distinct. */
  lemma {:induction false} JournalStaysDistinct(entries: seq<Entry>, entry: Entry)
    requires Distinct(entries)
    ensures Distinct(With(entries, entry)) && Distinct(Without(entries, entry.key))
  {
    if entries != [] {
      JournalStaysDistinct(entries[1..], entry);
      WithOf(entries[1..], entry, entries[0].key);
      WithoutOf(entries[1..], entry.key, entries[0].key);
    }
  }

  lemma {:induction false} MemberOf(entries: seq<Entry>, k: nat)
    requires k < |entries|
    ensures entries[k] in Of(entries, entries[k].key)
  {
    if k > 0 {
      MemberOf(entries[1..], k - 1);
    }
  }

  lemma {:induction false} OfMembers(entries: seq<Entry>, account: AccountKey, e: Entry)
    requires e in Of(entries, account)
    ensures e in entries && e.key == account
  {
    if e in Of(entries[1..], account) {
      OfMembers(entries[1..], account, e);
    }
  }

  /** The first entry of an account is the one in front. */
  lemma {:induction false} FirstOf(entries: seq<Entry>, account: AccountKey, k: nat)
    requires k < |entries| && entries[k].key == account && forall j | 0 <= j < k :: entries[j].key != account
    ensures Of(entries, account) != [] && Of(entries, account)[0] == entries[k]
  {
    if k > 0 {
      FirstOf(entries[1..], account, k - 1);
    }
  }

  lemma {:induction false} OnlyOf(entries: seq<Entry>, account: AccountKey, e: Entry)
    requires Distinct(entries) && e in entries && e.key == account
    ensures Of(entries, account) == [e]
  {
    if e == entries[0] {
      assert !Holds(entries[1..], account);
    } else {
      OnlyOf(entries[1..], account, e);
      assert e in entries[1..];
    }
  }

  // ---- What a document may hold ----

  /** How documents are written, and what loading and every change make of an entry: `tidy` fills
      in and cleans up, `accepts` may then refuse. */
  datatype Schema = Schema(
    format: Format<seq<Entry>>, tidy: (Name, Entry) -> Entry, accepts: (Name, Entry) -> bool)

  /** Tidying is done once and keeps the account; the journal is taken as it is. */
  ghost predicate IsSchema(schema: Schema) {
    && WritesReadably(schema.format)
    && (forall name, e :: IsTidy(schema, name, (schema.tidy)(name, e)) && (schema.tidy)(name, e).key == e.key)
    && (forall e :: (schema.tidy)(Journal, e) == e && (schema.accepts)(Journal, e))
  }

  predicate IsTidy(schema: Schema, name: Name, e: Entry) { (schema.tidy)(name, e) == e }

  function Tidied(schema: Schema, name: Name, entries: seq<Entry>): seq<Entry> {
    if entries == [] then [] else [(schema.tidy)(name, entries[0])] + Tidied(schema, name, entries[1..])
  }

  predicate Passes(schema: Schema, name: Name, entries: seq<Entry>) {
    (name.Journal? || Distinct(entries)) && forall e <- entries :: (schema.accepts)(name, e)
  }

  /** `validate` of each service. */
  function Checked(schema: Schema, name: Name, entries: seq<Entry>): Option<seq<Entry>> {
    var tidied := Tidied(schema, name, entries);
    if Passes(schema, name, tidied) then Some(tidied) else None
  }

  lemma {:induction false} TidiedTwice(schema: Schema, name: Name, entries: seq<Entry>)
    requires IsSchema(schema)
    ensures Tidied(schema, name, Tidied(schema, name, entries)) == Tidied(schema, name, entries)
  {
    if entries != [] {
      TidiedTwice(schema, name, entries[1..]);
      assert IsTidy(schema, name, (schema.tidy)(name, entries[0]));
    }
  }

  lemma {:induction false} TidiedOf(schema: Schema, name: Name, entries: seq<Entry>, account: AccountKey)
    requires IsSchema(schema)
    ensures Of(Tidied(schema, name, entries), account) == Tidied(schema, name, Of(entries, account))
  {
    if entries != [] {
      TidiedOf(schema, name, entries[1..], account);
      assert (schema.tidy)(name, entries[0]).key == entries[0].key;
    }
  }

  lemma {:induction false} TidiedWithout(schema: Schema, name: Name, entries: seq<Entry>, account: AccountKey)
    requires IsSchema(schema)
    ensures Tidied(schema, name, Without(entries, account)) == Without(Tidied(schema, name, entries), account)
  {
    if entries != [] {
      TidiedWithout(schema, name, entries[1..], account);
      assert (schema.tidy)(name, entries[0]).key == entries[0].key;
    }
  }

  lemma {:induction false} TidyJournal(schema: Schema, entries: seq<Entry>)
    requires IsSchema(schema)
    ensures Tidied(schema, Journal, entries) == entries
  {
    if entries != [] {
      TidyJournal(schema, entries[1..]);
    }
  }

  lemma {:induction false} WithoutPasses(schema: Schema, name: Name, entries: seq<Entry>, account: AccountKey)
    requires Passes(schema, name, entries)
    ensures Passes(schema, name, Without(entries, account))
  {
    if entries != [] {
      WithoutPasses(schema, name, entries[1..], account);
      WithoutOf(entries[1..], account, entries[0].key);
    }
  }

  lemma {:induction false} WithoutTwice(entries: seq<Entry>, account: AccountKey)
    ensures Without(Without(entries, account), account) == Without(entries, account)
  {
    if entries != [] {
      WithoutTwice(entries[1..], account);
    }
  }

  // ---- One document and its file ----

  function Content(files: Files<seq<Entry>>): seq<Entry> {
    if Readable(files.primary) then files.primary.value.parsed.value else []
  }

  /** What a service keeps in memory of the file. */
  function Memory(schema: Schema, name: Name, files: Files<seq<Entry>>): seq<Entry> {
    Tidied(schema, name, Content(files))
  }

  /** The file holds a document of this version that passes, or does not exist yet. */
  predicate WellKept(schema: Schema, name: Name, files: Files<seq<Entry>>) {
    && (files.primary.Some? ==>
          && Readable(files.primary)
          && (schema.format.supported.Some? ==> files.primary.value.version == schema.format.supported))
    && Passes(schema, name, Memory(schema, name, files))
  }

  /** The document or its backup still names the account. */
  predicate Keeps(files: Files<seq<Entry>>, account: AccountKey) {
    || Holds(Content(files), account)
    || (Readable(files.backup) && Holds(files.backup.value.parsed.value, account))
  }

  /** What a removal writes. */
  function Goal(schema: Schema, name: Name, files: Files<seq<Entry>>, account: AccountKey): Bytes<seq<Entry>> {
    (schema.format.encode)(Without(Memory(schema, name, files), account))
  }

  /** What a finished removal leaves: the document without the account, twice. */
  function Finished(schema: Schema, name: Name, files: Files<seq<Entry>>, account: AccountKey): Files<seq<Entry>> {
    var bytes := Goal(schema, name, files, account);
    Files(Some(bytes), Some(bytes), files.damaged)
  }

  /** What a removal cut off anywhere leaves: nothing in either file but what was there and what
      the removal writes. */
  predicate IsTrimmed(schema: Schema, name: Name, was: Files<seq<Entry>>, now: Files<seq<Entry>>, account: AccountKey) {
    var goal := Some(Goal(schema, name, was, account));
    && now.damaged == was.damaged
    && (now.primary == was.primary || now.primary == goal)
    && (now.backup == was.backup || (now.backup == was.primary && Readable(was.primary)) || now.backup == goal)
  }

  /** A removal, cut off or not, does not change what a removal writes. */
  lemma TrimmedHasSameGoal(schema: Schema, name: Name, was: Files<seq<Entry>>, now: Files<seq<Entry>>,
                           account: AccountKey)
    requires IsSchema(schema) && IsTrimmed(schema, name, was, now, account)
    ensures Goal(schema, name, now, account) == Goal(schema, name, was, account)
  {
    var memory := Memory(schema, name, was);
    if now.primary != was.primary {
      assert Content(now) == Without(memory, account);
      TidiedWithout(schema, name, memory, account);
      TidiedTwice(schema, name, Content(was));
      WithoutTwice(memory, account);
    }
  }

  lemma TrimsCompose(schema: Schema, name: Name, was: Files<seq<Entry>>, between: Files<seq<Entry>>,
                     now: Files<seq<Entry>>, account: AccountKey)
    requires IsSchema(schema) && IsTrimmed(schema, name, was, between, account)
    requires IsTrimmed(schema, name, between, now, account)
    ensures IsTrimmed(schema, name, was, now, account)
  {
    TrimmedHasSameGoal(schema, name, was, between, account);
  }

  /** Other accounts read as before, and no account comes back. */
  lemma TrimmedReads(schema: Schema, name: Name, was: Files<seq<Entry>>, now: Files<seq<Entry>>,
                     account: AccountKey, other: AccountKey)
    requires IsSchema(schema) && IsTrimmed(schema, name, was, now, account)
    ensures other != account ==> Of(Memory(schema, name, now), other) == Of(Memory(schema, name, was), other)
    ensures Keeps(now, other) ==> Keeps(was, other)
    ensures Holds(Content(now), other) ==> Holds(Content(was), other)
  {
    var memory := Memory(schema, name, was);
    WithoutOf(memory, account, other);
    TidiedWithout(schema, name, memory, account);
    TidiedTwice(schema, name, Content(was));
    TidiedOf(schema, name, Content(was), other);
    var goal := Goal(schema, name, was, account);
    assert goal.parsed == Some(Without(memory, account));
    assert Holds(Without(memory, account), other) ==> Holds(Content(was), other);
  }

  lemma FinishedIsScrubbed(schema: Schema, name: Name, files: Files<seq<Entry>>, account: AccountKey)
    requires IsSchema(schema)
    ensures !Keeps(Finished(schema, name, files, account), account)
    ensures Memory(schema, name, Finished(schema, name, files, account))
      == Without(Memory(schema, name, files), account)
  {
    var memory := Memory(schema, name, files);
    WithoutOf(memory, account, account);
    TidiedWithout(schema, name, memory, account);
    TidiedTwice(schema, name, Content(files));
  }

  /** Removing an account from a document that passes leaves one that passes, as it is. */
  lemma RemovalPasses(schema: Schema, name: Name, files: Files<seq<Entry>>, account: AccountKey)
    requires IsSchema(schema) && WellKept(schema, name, files)
    ensures var next := Without(Memory(schema, name, files), account); Checked(schema, name, next) == Some(next)
  {
    var memory := Memory(schema, name, files);
    TidiedWithout(schema, name, memory, account);
    TidiedTwice(schema, name, Content(files));
    WithoutPasses(schema, name, memory, account);
  }

  // ---- Saving and loading ----

  /** A save, wherever it is cut off, keeps the document readable, the old one or the new one. */
  lemma SaveKeepsFile(schema: Schema, name: Name, files: Files<seq<Entry>>, next: seq<Entry>, cut: nat)
    requires IsSchema(schema) && WellKept(schema, name, files) && Checked(schema, name, next) == Some(next)
    ensures var saved := SavedFiles(files, (schema.format.encode)(next), cut);
            && WellKept(schema, name, saved)
            && Memory(schema, name, saved) == if cut >= SaveWrites(files) then next else Memory(schema, name, files)
  {
  }

  /** Where a removal may leave a file: at any cut of the save, or with the backup scrubbed too. */
  lemma RemovalSteps(schema: Schema, name: Name, files: Files<seq<Entry>>, account: AccountKey, cut: nat)
    requires IsSchema(schema) && WellKept(schema, name, files)
    ensures var saved := SavedFiles(files, Goal(schema, name, files, account), cut);
            && IsTrimmed(schema, name, files, saved, account)
            && (cut >= SaveWrites(files) ==> BackupReplaced(saved) == Finished(schema, name, files, account))
  {
  }

  lemma FinishedIsWellKept(schema: Schema, name: Name, files: Files<seq<Entry>>, account: AccountKey)
    requires IsSchema(schema) && WellKept(schema, name, files)
    ensures WellKept(schema, name, Finished(schema, name, files, account))
  {
    RemovalPasses(schema, name, files, account);
    FinishedIsScrubbed(schema, name, files, account);
  }

  /** A start can go on with this file: it is missing, good, or damaged with a good backup or none. */
  predicate CanOpen(schema: Schema, name: Name, files: Files<seq<Entry>>) {
    !LoadAnswer(schema.format, files).Rejected? && WellKept(schema, name, LoadedFiles(schema.format, files))
  }

  /** The file was opened, perhaps by recovery, and the memory is what it then holds. */
  predicate IsOpened(schema: Schema, name: Name, was: Files<seq<Entry>>, now: Files<seq<Entry>>, memory: seq<Entry>) {
    CanOpen(schema, name, was) && now == LoadedFiles(schema.format, was) && memory == Memory(schema, name, now)
  }

  /** What a start takes into memory passed: no account twice, and every entry cleaned up and accepted. */
  lemma OpenedPasses(schema: Schema, name: Name, was: Files<seq<Entry>>, now: Files<seq<Entry>>, memory: seq<Entry>,
                     e: Entry)
    requires IsSchema(schema) && IsOpened(schema, name, was, now, memory) && e in memory
    ensures (schema.accepts)(name, e) && (schema.tidy)(name, e) == e
    ensures name != Journal ==> Of(memory, e.key) == [e]
  {
    TidiedMembers(schema, name, Content(now), e);
    if name != Journal {
      OnlyOf(memory, e.key, e);
    }
  }

  lemma {:induction false} TidiedMembers(schema: Schema, name: Name, entries: seq<Entry>, e: Entry)
    requires IsSchema(schema) && e in Tidied(schema, name, entries)
    ensures IsTidy(schema, name, e)
  {
    if e != (schema.tidy)(name, entries[0]) {
      TidiedMembers(schema, name, entries[1..], e);
    }
  }

  lemma WellKeptOpens(schema: Schema, name: Name, files: Files<seq<Entry>>)
    requires WellKept(schema, name, files)
    ensures CanOpen(schema, name, files) && LoadedFiles(schema.format, files) == files
    ensures LoadAnswer(schema.format, files).Missing? || LoadAnswer(schema.format, files).Document?
  {
  }

  /** `open` of each service: recovers if it must, and refuses other versions and what does not pass. */
  method OpenDocument(disk: Disk, schema: Schema, name: Name) returns (document: Option<seq<Entry>>)
    requires disk.format == schema.format && IsSchema(schema) && name in disk.files
    modifies disk
    ensures name in disk.files && disk.files == old(disk.files)[name := disk.files[name]]
    ensures document.Some? ==> IsOpened(schema, name, old(disk.files[name]), disk.files[name], document.value)
                               && disk.refused == old(disk.refused)
    ensures document.None? ==> !WellKept(schema, name, old(disk.files[name]))
                               && (!CanOpen(schema, name, old(disk.files[name])) || disk.refused)
  {
    var loaded := disk.Load(name);
    if !loaded.Some? || loaded.value.Rejected? {
      return None;
    }
    var primary := disk.files[name].primary;
    if primary.Some? && schema.format.supported.Some? && primary.value.version != schema.format.supported {
      return None;
    }
    document := Checked(schema, name, match loaded.value
                                      case Document(found) => found
                                      case Restored(found) => found
                                      case Missing | Defaulted => []);
  }
}
