/** One app-owned JSON document with its backup (`src/preferences/json_file.rs`). Reading and
    atomically replacing a file are single steps; any write may be refused, and a crash after a
    write leaves the same files as a refusal of the next one. */
module JsonFile {
  import opened Basics

  /** A file's bytes, by what the JSON reader finds in them: an object, a numeric version, and a
      document of this build's schema. `raw` keeps different bytes apart. */
  datatype Bytes<+D> = Bytes(raw: nat, isObject: bool, version: Option<nat>, parsed: Option<D>)

  datatype Files<+D> = Files(primary: Option<Bytes<D>>, backup: Option<Bytes<D>>, damaged: seq<Bytes<D>>)

  /** How one kind of document is written and read: the supported version, when it records one,
      and the serializer. */
  datatype Format<!D> = Format(supported: Option<nat>, encode: D -> Bytes<D>)

  /** The reader inverts the serializer, which records the supported version. */
  ghost predicate WritesReadably<D(!new)>(format: Format<D>) {
    forall document: D ::
      var bytes := (format.encode)(document);
      bytes.parsed == Some(document) && bytes.isObject && (format.supported.Some? ==> bytes.version == format.supported)
  }

  datatype Loaded<+D> = Missing | Document(document: D) | Restored(document: D) | Defaulted | Rejected

  // ---- What loading answers and leaves behind ----

  predicate Readable<D>(file: Option<Bytes<D>>) { file.Some? && file.value.parsed.Some? }

  /** A well-formed document of another version is rejected before recovery can touch it. */
  function LoadAnswer<D>(format: Format<D>, files: Files<D>): Loaded<D> {
    if files.primary.None? then Missing
    else
      var bytes := files.primary.value;
      if format.supported.Some? && bytes.version.Some? && bytes.version != format.supported then Rejected
      else if bytes.parsed.Some? then Document(bytes.parsed.value)
      else if (if format.supported.Some? then bytes.version.Some? else bytes.isObject) then Rejected
      else if Readable(files.backup) then Restored(files.backup.value.parsed.value)
      else Defaulted
  }

  /** The files after a load that no write interrupts. */
  function LoadedFiles<D>(format: Format<D>, files: Files<D>): Files<D> {
    match LoadAnswer(format, files)
    case Missing | Document(_) | Rejected => files
    case Restored(_) => Files(files.backup, files.backup, files.damaged + [files.primary.value])
    case Defaulted => Files(None, files.backup, files.damaged + [files.primary.value])
  }

  /** The files between the two writes of a recovery. */
  function MovedAside<D>(files: Files<D>): Files<D>
    requires files.primary.Some?
  {
    Files(None, files.backup, files.damaged + [files.primary.value])
  }

  // ---- What saving writes, one atomic write at a time ----

  /** A readable primary becomes the backup first; anything else is not a recovery point. */
  function SaveWrites<D>(files: Files<D>): nat { if Readable(files.primary) then 2 else 1 }

  /** The files after the first `cut` writes of a save. */
  function SavedFiles<D>(files: Files<D>, bytes: Bytes<D>, cut: nat): Files<D> {
    if cut == 0 then files
    else if cut < SaveWrites(files) then files.(backup := files.primary)
    else if Readable(files.primary) then files.(primary := Some(bytes), backup := files.primary)
    else files.(primary := Some(bytes))
  }

  function BackupReplaced<D>(files: Files<D>): Files<D> {
    if files.primary.Some? then files.(backup := files.primary) else files
  }

  /** The files of several documents of one schema, by name. The disk may refuse any write, and
      `refused` remembers that it did. */
  class FileSystem<Name(==), D> {
    const format: Format<D>
    var files: map<Name, Files<D>>
    var refused: bool

    constructor (format: Format<D>, files: map<Name, Files<D>>)
      ensures this.format == format && this.files == files && !refused
    {
      this.format, this.files, refused := format, files, false;
    }

    method Write() returns (done: bool)
      modifies this`refused
      ensures if done then refused == old(refused) else refused
    {
      if * {
        return true;
      }
      refused := true;
      done := false;
    }

    method SaveWithBackup(name: Name, document: D) returns (ok: bool, ghost cut: nat)
      requires name in files
      modifies this
      ensures files == old(files)[name := SavedFiles(old(files[name]), (format.encode)(document), cut)]
      ensures ok <==> cut >= SaveWrites(old(files[name]))
      ensures ok || (format.encode)(document).parsed.None? ==> refused == old(refused)
      ensures (format.encode)(document).parsed.Some? ==> ok || refused
      ensures (format.encode)(document).parsed.None? ==> cut == 0
    {
      var bytes := (format.encode)(document);
      cut := 0;
      if bytes.parsed.None? {
        return false, cut;
      }
      var primary := files[name].primary;
      if primary.Some? && primary.value.parsed.Some? {
        var moved := Write();
        if !moved {
          return false, cut;
        }
        files := files[name := files[name].(backup := primary)];
        cut := cut + 1;
      }
      ok := Write();
      if ok {
        files := files[name := files[name].(primary := Some(bytes))];
        cut := cut + 1;
      }
    }

    method ReplaceBackupWithPrimary(name: Name) returns (ok: bool)
      requires name in files
      modifies this
      ensures files == if ok then old(files)[name := BackupReplaced(old(files[name]))] else old(files)
      ensures if ok then refused == old(refused) else refused
    {
      ok := true;
      if files[name].primary.Some? {
        ok := Write();
        if ok {
          files := files[name := files[name].(backup := files[name].primary)];
        }
      }
    }

    /** `None` is a load that a refused write cut short. */
    method Load(name: Name) returns (loaded: Option<Loaded<D>>)
      requires name in files
      modifies this
      ensures loaded.Some? ==> loaded.value == LoadAnswer(format, old(files[name]))
                               && files == old(files)[name := LoadedFiles(format, old(files[name]))]
                               && refused == old(refused)
      ensures loaded.None? ==> refused && (var answer := LoadAnswer(format, old(files[name]));
                                           answer.Restored? || answer.Defaulted?)
      ensures loaded.None? ==> var was := old(files[name]);
                               files == old(files) || files == old(files)[name := MovedAside(was)]
      ensures name in files && files[name].backup == old(files[name].backup)
    {
      var primary := files[name].primary;
      if primary.None? {
        return Some(Missing);
      }
      var bytes := primary.value;
      var intact := bytes.isObject;
      if format.supported.Some? {
        if bytes.version.Some? && bytes.version != format.supported {
          return Some(Rejected);
        }
        intact := bytes.version.Some?;
      }
      if bytes.parsed.Some? {
        return Some(Document(bytes.parsed.value));
      }
      if intact {
        return Some(Rejected);
      }
      var renamed := Write();
      if !renamed {
        return None;
      }
      files := files[name := files[name].(primary := None, damaged := files[name].damaged + [bytes])];
      var backup := files[name].backup;
      if backup.Some? && backup.value.parsed.Some? {
        var restored := Write();
        if !restored {
          return None;
        }
        files := files[name := files[name].(primary := backup)];
        return Some(Restored(backup.value.parsed.value));
      }
      loaded := Some(Defaulted);
    }
  }

  // ---- Interrupted saves are safe ----

  /** Wherever a save is cut off, the next load answers the new document, or exactly what it would
      have answered before the save: the new document if and only if every write was done. */
  lemma InterruptedSaveIsOldOrNew<D(!new)>(format: Format<D>, files: Files<D>, document: D, cut: nat)
    requires WritesReadably(format)
    ensures LoadAnswer(format, SavedFiles(files, (format.encode)(document), cut))
      == if cut >= SaveWrites(files) then Document(document) else LoadAnswer(format, files)
  {
  }

  /** What happens to the two files. A recovery cut off between its two writes leaves no primary. */
  datatype Event<D> =
    | Saving(document: D, cut: nat)
    | Damage(found: Option<Bytes<D>>)
    | Loading
    | InterruptedLoading

  function Next<D>(format: Format<D>, files: Files<D>, event: Event<D>): Files<D> {
    match event
    case Saving(document, cut) => SavedFiles(files, (format.encode)(document), cut)
    case Damage(found) => files.(primary := found)
    case Loading => LoadedFiles(format, files)
    case InterruptedLoading =>
      var answer := LoadAnswer(format, files);
      if answer.Restored? || answer.Defaulted? then MovedAside(files) else files
  }

  function After<D>(format: Format<D>, files: Files<D>, events: seq<Event<D>>): Files<D> {
    if events == [] then files
    else Next(format, After(format, files, events[..|events| - 1]), events[|events| - 1])
  }

  /** The document of the last save that was finished. */
  function LastSaved<D>(format: Format<D>, files: Files<D>, events: seq<Event<D>>): Option<D> {
    if events == [] then None
    else
      var init, last := events[..|events| - 1], events[|events| - 1];
      if last.Saving? && last.cut >= SaveWrites(After(format, files, init)) then Some(last.document)
      else LastSaved(format, files, init)
  }

  /** Over any run of saves, each perhaps cut short, and loads, the next load answers the last
      document whose save was finished, or what it answered at first. */
  lemma {:induction false} LastFinishedSaveIsLoaded<D(!new)>(format: Format<D>, files: Files<D>, events: seq<Event<D>>)
    requires WritesReadably(format) && forall event <- events :: !event.Damage?
    requires var answer := LoadAnswer(format, files); answer.Missing? || answer.Document? || answer.Rejected?
    ensures var saved := LastSaved(format, files, events);
            LoadAnswer(format, After(format, files, events))
              == if saved.Some? then Document(saved.value) else LoadAnswer(format, files)
  {
    if events != [] {
      var last := events[|events| - 1];
      LastFinishedSaveIsLoaded(format, files, events[..|events| - 1]);
      if last.Saving? {
        InterruptedSaveIsOldOrNew(format, After(format, files, events[..|events| - 1]), last.document, last.cut);
      }
    }
  }

  /** The documents a load may answer: those a run began with, saved, or was handed. */
  predicate Known<D(==)>(files: Files<D>, events: seq<Event<D>>, document: D) {
    || Spells(files.primary, document) || Spells(files.backup, document)
    || exists event <- events ::
         (event.Saving? && event.document == document) || (event.Damage? && Spells(event.found, document))
  }

  predicate Spells<D(==)>(file: Option<Bytes<D>>, document: D) { file.Some? && file.value.parsed == Some(document) }

  /** Nothing is made up: over any run, damage included, both files only ever spell known documents. */
  lemma {:induction false} OnlyKnownDocumentsAreLoaded<D(!new)>(format: Format<D>, files: Files<D>,
                                                                events: seq<Event<D>>, document: D)
    requires WritesReadably(format)
    ensures var later := After(format, files, events);
            && (Spells(later.primary, document) || Spells(later.backup, document) ==> Known(files, events, document))
            && (LoadAnswer(format, later) in {Document(document), Restored(document)} ==>
                  Known(files, events, document))
  {
    if events != [] {
      var init, last := events[..|events| - 1], events[|events| - 1];
      OnlyKnownDocumentsAreLoaded(format, files, init, document);
      assert events == init + [last];
      assert Known(files, init, document) ==> Known(files, events, document);
    }
  }

  /** Whatever happens to the primary, a readable backup never becomes unreadable, so a damaged
      primary never falls back to defaults. */
  lemma {:induction false} BackupStaysReadable<D(!new)>(format: Format<D>, files: Files<D>, events: seq<Event<D>>)
    requires Readable(files.backup)
    ensures var later := After(format, files, events);
            Readable(later.backup) && LoadAnswer(format, later) != Defaulted
  {
    if events != [] {
      BackupStaysReadable(format, files, events[..|events| - 1]);
    }
  }

  /** Damage costs one save at most: after two finished saves and perhaps a third cut short, a
      damaged primary comes back as one of the two, and stays so. */
  lemma DamageCostsOneSave<D(!new)>(format: Format<D>, files: Files<D>, older: D, newer: D, lost: D, cut: nat,
                                    damage: Bytes<D>)
    requires WritesReadably(format)
    requires damage.parsed.None? && damage.version.None? && !damage.isObject && cut < 2
    ensures var first := SavedFiles(files, (format.encode)(older), 2);
            var second := SavedFiles(first, (format.encode)(newer), 2);
            var third := SavedFiles(second, (format.encode)(lost), cut);
            var damaged := third.(primary := Some(damage));
            LoadAnswer(format, damaged) == Restored(if cut == 0 then older else newer)
            && LoadAnswer(format, LoadedFiles(format, damaged)) == Document(if cut == 0 then older else newer)
  {
  }

  /** What a start finds. No primary is no document, whatever the backup holds; a document of this
      version is answered as it is; and defaults are taken exactly where both files are damaged or
      there is no backup. */
  lemma FoundExactly<D(!new)>(format: Format<D>, files: Files<D>)
    ensures files.primary.None? <==> LoadAnswer(format, files).Missing?
    ensures var answer := LoadAnswer(format, files);
            answer.Missing? || answer.Document? || answer.Rejected? ==> LoadedFiles(format, files) == files
    ensures forall document :: LoadAnswer(format, files) == Document(document)
              <==> && files.primary.Some? && files.primary.value.parsed == Some(document)
                   && (format.supported.Some? && files.primary.value.version.Some? ==>
                         files.primary.value.version == format.supported)
    ensures LoadAnswer(format, files).Defaulted?
      <==> IsDamaged(format, files) && (files.backup.None? || files.backup.value.parsed.None?)
    ensures forall document :: LoadAnswer(format, files) == Restored(document)
              <==> IsDamaged(format, files) && files.backup.Some? && files.backup.value.parsed == Some(document)
  {
  }

  /** The primary is not even the right kind of JSON: no object, or none with a version. */
  predicate IsDamaged<D>(format: Format<D>, files: Files<D>) {
    && files.primary.Some? && files.primary.value.parsed.None?
    && (if format.supported.Some? then files.primary.value.version.None? else !files.primary.value.isObject)
  }

  /** No damaged file is thrown away: over any run, what a load moved aside, cut short or not, is kept
      in order with all that was moved aside before. */
  lemma {:induction false} DamagedFilesAreKept<D(!new)>(format: Format<D>, files: Files<D>, events: seq<Event<D>>,
                                                        i: nat)
    requires i < |events| && events[i] in {Loading, InterruptedLoading}
    requires IsDamaged(format, After(format, files, events[..i]))
    ensures var before := After(format, files, events[..i]);
            before.damaged + [before.primary.value] <= After(format, files, events).damaged
    decreases |events|
  {
    var n := |events| - 1;
    if i < n {
      assert events[..n][..i] == events[..i];
      DamagedFilesAreKept(format, files, events[..n], i);
    }
  }

  /** A restored document stays: the next load answers it without recovery, except that a backup
      recording another version, which recovery does not look at, is rejected from then on. */
  lemma RecoveryIsStable<D(!new)>(format: Format<D>, files: Files<D>)
    requires LoadAnswer(format, files).Restored?
    ensures var version := files.backup.value.version;
            LoadAnswer(format, LoadedFiles(format, files))
              == if format.supported.Some? && version.Some? && version != format.supported then Rejected
                 else Document(LoadAnswer(format, files).document)
  {
  }

  /** A well-formed document this build does not read is left byte for byte in place: one of
      another version, or one of the supported format whose content the schema rejects. */
  lemma ForeignDocumentsAreLeftAlone<D(!new)>(format: Format<D>, files: Files<D>)
    requires files.primary.Some?
    requires var bytes := files.primary.value;
             if format.supported.Some?
             then bytes.version.Some? && (bytes.version != format.supported || bytes.parsed.None?)
             else bytes.isObject && bytes.parsed.None?
    ensures LoadAnswer(format, files) == Rejected && LoadedFiles(format, files) == files
  {
  }
}
