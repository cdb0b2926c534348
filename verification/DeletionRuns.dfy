/** What attempts at deleting an account leave behind, cut off anywhere and tried again
    (`src/app/services.rs`), as values. */
module DeletionRuns {
  import opened Basics
  import opened AccountSession
  import opened JsonFile
  import opened AccountDocuments

  type Documents = map<Name, Files<seq<Entry>>>

  /** What one process leaves to the next: the documents, the accounts with rows in the three
      snapshot tables, and the store, which holds the fourth. */
  datatype Remains = Remains(files: Documents, snapshots: set<AccountKey>, store: Store)

  predicate IsComplete(left: Remains) { forall name: Name :: name in left.files }

  /** The saved credentials are the account's; nobody's account has a blank id. */
  predicate StoredFor(store: Store, account: AccountKey) {
    && NewAccountKey(account.serverId, account.userId).Some?
    && store.credentials.Account() == Some((account.serverId, account.userId))
  }

  /** What the journal on disk lists for the account. */
  function Listed(left: Remains, account: AccountKey): seq<Entry>
    requires IsComplete(left)
  {
    Of(Content(left.files[Journal]), account)
  }

  predicate Recorded(left: Remains, account: AccountKey)
    requires IsComplete(left)
  {
    Listed(left, account) != []
  }

  predicate Scrubbed(files: Documents, account: AccountKey)
    requires forall name: Name :: name in files
  {
    !Keeps(files[Accounts], account) && !Keeps(files[Collections], account) && !Keeps(files[Playback], account)
  }

  /** No document, backup, snapshot row or saved credential is the account's any more. */
  predicate Gone(left: Remains, account: AccountKey)
    requires IsComplete(left)
  {
    && Scrubbed(left.files, account)
    && account !in left.snapshots && account !in left.store.memberships
    && !StoredFor(left.store, account)
  }

  predicate Settled(left: Remains, account: AccountKey)
    requires IsComplete(left)
  {
    Recorded(left, account) || Gone(left, account)
  }

  predicate IsDone(left: Remains, account: AccountKey)
    requires IsComplete(left)
  {
    Gone(left, account) && !Recorded(left, account)
  }

  // ---- One attempt ----

  ghost predicate OnlyRemoves(schema: Schema, before: Documents, after: Documents, account: AccountKey)
    requires forall name: Name :: name in before && name in after
  {
    forall name: Name :: IsTrimmed(schema, name, before[name], after[name], account)
  }

  /** One attempt at an account's deletion, cut off anywhere. `cleared` says whether it got as far
      as clearing the session, and with it the tables of the catalog. */
  ghost predicate Attempts(schema: Schema, before: Remains, after: Remains, account: AccountKey, cleared: bool)
    requires IsComplete(before) && IsComplete(after)
  {
    && OnlyRemoves(schema, before.files, after.files, account)
    && after.snapshots in {before.snapshots, before.snapshots - {account}}
    && (if cleared then after.store == SessionCleared(before.store, true)
        else after.store.(memberships := {}) == before.store.(memberships := {})
             && after.store.memberships in {before.store.memberships, before.store.memberships - {account}})
    && (after.files[Journal] == before.files[Journal] || Gone(after, account))
  }

  /** A finished attempt: every file holds the document without the account, twice. */
  ghost predicate IsFinished(schema: Schema, before: Remains, after: Remains, account: AccountKey)
    requires IsComplete(before) && IsComplete(after)
  {
    && (forall name: Name :: after.files[name] == Finished(schema, name, before.files[name], account))
    && after.snapshots == before.snapshots - {account} && account !in after.store.memberships
  }

  lemma RemovalsCompose(schema: Schema, before: Documents, between: Documents, after: Documents, account: AccountKey)
    requires IsSchema(schema) && forall name: Name :: name in before && name in between && name in after
    requires OnlyRemoves(schema, before, between, account) && OnlyRemoves(schema, between, after, account)
    ensures OnlyRemoves(schema, before, after, account)
  {
    forall name: Name
      ensures IsTrimmed(schema, name, before[name], after[name], account)
    {
      assert IsTrimmed(schema, name, before[name], between[name], account);
      assert IsTrimmed(schema, name, between[name], after[name], account);
      TrimsCompose(schema, name, before[name], between[name], after[name], account);
    }
  }

  /** One file changes: the other files are trimmed as they were. */
  lemma OneFileRemoves(schema: Schema, files: Documents, name: Name, now: Files<seq<Entry>>, account: AccountKey)
    requires (forall other: Name :: other in files) && IsTrimmed(schema, name, files[name], now, account)
    ensures OnlyRemoves(schema, files, files[name := now], account)
  {
    forall other: Name
      ensures IsTrimmed(schema, other, files[other], files[name := now][other], account)
    {
    }
  }

  /** Once everything else is gone, the journal may be rewritten. */
  lemma JournalLast(schema: Schema, before: Remains, held: Remains, now: Files<seq<Entry>>, account: AccountKey,
                    cleared: bool)
    requires IsSchema(schema) && IsComplete(before) && IsComplete(held)
    requires Attempts(schema, before, held, account, cleared) && Gone(held, account)
    requires IsTrimmed(schema, Journal, held.files[Journal], now, account)
    ensures Attempts(schema, before, held.(files := held.files[Journal := now]), account, cleared)
    ensures Gone(held.(files := held.files[Journal := now]), account)
  {
    OneFileRemoves(schema, held.files, Journal, now, account);
    RemovalsCompose(schema, before.files, held.files, held.files[Journal := now], account);
  }

  // ---- What attempts keep ----

  /** An attempt takes no account out of the journal that is not gone, brings none back, and
      lists nothing new. */
  predicate Progress(before: Remains, after: Remains, other: AccountKey)
    requires IsComplete(before) && IsComplete(after)
  {
    && (Settled(before, other) ==> Settled(after, other))
    && (Gone(before, other) ==> Gone(after, other))
    && (Scrubbed(before.files, other) ==> Scrubbed(after.files, other))
    && (Listed(after, other) == Listed(before, other) || !Recorded(after, other))
  }

  lemma AttemptsKeepSettled(schema: Schema, before: Remains, after: Remains, account: AccountKey, cleared: bool,
                            other: AccountKey)
    requires IsSchema(schema) && IsComplete(before) && IsComplete(after)
    requires Attempts(schema, before, after, account, cleared)
    ensures Progress(before, after, other)
  {
    forall name: Name
      ensures Keeps(after.files[name], other) ==> Keeps(before.files[name], other)
    {
      assert IsTrimmed(schema, name, before.files[name], after.files[name], account);
      TrimmedReads(schema, name, before.files[name], after.files[name], account, other);
    }
    assert IsTrimmed(schema, Journal, before.files[Journal], after.files[Journal], account);
    TrimmedJournal(schema, before, after, account, other);
  }

  /** A removal from the journal leaves the lines of other accounts, and all or none of its own. */
  lemma TrimmedJournal(schema: Schema, before: Remains, after: Remains, account: AccountKey, other: AccountKey)
    requires IsSchema(schema) && IsComplete(before) && IsComplete(after)
    requires IsTrimmed(schema, Journal, before.files[Journal], after.files[Journal], account)
    ensures Listed(after, other) == Listed(before, other) || (other == account && !Recorded(after, other))
  {
    var content := Content(before.files[Journal]);
    TidyJournal(schema, content);
    WithoutOf(content, account, other);
  }

  ghost predicate Advances(before: Remains, after: Remains)
    requires IsComplete(before) && IsComplete(after)
  {
    forall other :: Progress(before, after, other)
  }

  lemma AttemptsAdvance(schema: Schema, before: Remains, after: Remains, account: AccountKey, cleared: bool)
    requires IsSchema(schema) && IsComplete(before) && IsComplete(after)
    requires Attempts(schema, before, after, account, cleared)
    ensures Advances(before, after)
  {
    forall other
      ensures Progress(before, after, other)
    {
      AttemptsKeepSettled(schema, before, after, account, cleared, other);
    }
  }

  lemma AdvancesCompose(before: Remains, between: Remains, after: Remains)
    requires IsComplete(before) && IsComplete(between) && IsComplete(after)
    requires Advances(before, between) && Advances(between, after)
    ensures Advances(before, after)
  {
    forall other
      ensures Progress(before, after, other)
    {
      assert Progress(before, between, other) && Progress(between, after, other);
    }
  }

  // ---- What attempts leave to other accounts ----

  /** The documents read the same for the account, and its rows in the three snapshot tables stay. */
  ghost predicate Untouched(schema: Schema, before: Remains, after: Remains, other: AccountKey)
    requires IsComplete(before) && IsComplete(after)
  {
    && (forall name: Name :: ReadsAlike(schema, name, before.files[name], after.files[name], other))
    && (other in after.snapshots <==> other in before.snapshots)
  }

  predicate ReadsAlike(schema: Schema, name: Name, was: Files<seq<Entry>>, now: Files<seq<Entry>>, other: AccountKey) {
    Of(Memory(schema, name, now), other) == Of(Memory(schema, name, was), other)
  }

  lemma AttemptsSpareOthers(schema: Schema, before: Remains, after: Remains, account: AccountKey, cleared: bool,
                            other: AccountKey)
    requires IsSchema(schema) && IsComplete(before) && IsComplete(after) && other != account
    requires Attempts(schema, before, after, account, cleared)
    ensures Untouched(schema, before, after, other)
  {
    forall name: Name
      ensures ReadsAlike(schema, name, before.files[name], after.files[name], other)
    {
      assert IsTrimmed(schema, name, before.files[name], after.files[name], account);
      TrimmedReads(schema, name, before.files[name], after.files[name], account, other);
    }
  }

  /** The fourth table is not spared: another account's memberships, and the items and other rows of
      the catalog, survive an attempt exactly when it did not clear the session. */
  lemma OthersSurviveUnlessCleared(schema: Schema, before: Remains, after: Remains, account: AccountKey, cleared: bool,
                                   other: AccountKey)
    requires IsComplete(before) && IsComplete(after) && other != account
    requires Attempts(schema, before, after, account, cleared)
    ensures KeepsMemberships(before, after, other, cleared) && KeepsCatalog(before, after, cleared)
  {
  }

  predicate KeepsMemberships(before: Remains, after: Remains, other: AccountKey, cleared: bool) {
    other in after.store.memberships <==> other in before.store.memberships && !cleared
  }

  predicate KeepsCatalog(before: Remains, after: Remains, cleared: bool) {
    && after.store.items == (if cleared then map[] else before.store.items)
    && after.store.others == (if cleared then map[] else before.store.others)
  }

  /** What the deletion of other accounts leaves to an account. */
  ghost predicate Spared(schema: Schema, before: Remains, after: Remains, other: AccountKey, cleared: bool)
    requires IsComplete(before) && IsComplete(after)
  {
    && Untouched(schema, before, after, other) && KeepsMemberships(before, after, other, cleared)
    && Progress(before, after, other) && Listed(after, other) == Listed(before, other)
  }

  lemma AttemptSpares(schema: Schema, before: Remains, after: Remains, account: AccountKey, cleared: bool,
                      other: AccountKey)
    requires IsSchema(schema) && IsComplete(before) && IsComplete(after) && other != account
    requires Attempts(schema, before, after, account, cleared)
    ensures Spared(schema, before, after, other, cleared)
  {
    AttemptsSpareOthers(schema, before, after, account, cleared, other);
    OthersSurviveUnlessCleared(schema, before, after, account, cleared, other);
    AttemptsKeepSettled(schema, before, after, account, cleared, other);
    assert IsTrimmed(schema, Journal, before.files[Journal], after.files[Journal], account);
    TrimmedJournal(schema, before, after, account, other);
  }

  lemma SparedCompose(schema: Schema, before: Remains, between: Remains, after: Remains, other: AccountKey,
                      first: bool, second: bool)
    requires IsComplete(before) && IsComplete(between) && IsComplete(after)
    requires Spared(schema, before, between, other, first) && Spared(schema, between, after, other, second)
    ensures Spared(schema, before, after, other, first || second)
  {
    forall name: Name
      ensures ReadsAlike(schema, name, before.files[name], after.files[name], other)
    {
      assert ReadsAlike(schema, name, before.files[name], between.files[name], other);
      assert ReadsAlike(schema, name, between.files[name], after.files[name], other);
    }
  }

  // ---- A deletion that is asked for ----

  /** Nothing but the journal's files changed. */
  predicate OnlyJournalChanged(before: Remains, after: Remains)
    requires IsComplete(before) && IsComplete(after)
  {
    after == before.(files := before.files[Journal := after.files[Journal]])
  }

  /** What one request may do, whether or not the account was listed before. It ends up listed or gone,
      or keeps everything, its line in the journal included; others are spared. */
  ghost predicate RequestKeeps(schema: Schema, before: Remains, after: Remains, account: AccountKey, cleared: bool)
    requires IsComplete(before) && IsComplete(after)
  {
    && (Settled(before, account) ==> Settled(after, account)) && (Gone(before, account) ==> Gone(after, account))
    && (Settled(after, account)
        || (OnlyJournalChanged(before, after) && Listed(after, account) == Listed(before, account)))
    && KeepsCatalog(before, after, cleared)
    && forall other | other != account :: Spared(schema, before, after, other, cleared)
  }

  /** The journal, and nothing else, lists the deletion now, or still does not. */
  predicate Begun(before: Remains, after: Remains, deletion: Entry)
    requires IsComplete(before) && IsComplete(after)
  {
    && OnlyJournalChanged(before, after)
    && Content(after.files[Journal]) in {Content(before.files[Journal]), With(Content(before.files[Journal]), deletion)}
  }

  lemma BeginKeeps(before: Remains, after: Remains, deletion: Entry, other: AccountKey)
    requires IsComplete(before) && IsComplete(after) && Begun(before, after, deletion)
    ensures Gone(after, other) <==> Gone(before, other)
    ensures Settled(before, other) ==> Settled(after, other)
    ensures other != deletion.key ==> Listed(after, other) == Listed(before, other)
  {
    WithOf(Content(before.files[Journal]), deletion, other);
  }

  lemma BeginSpares(schema: Schema, before: Remains, after: Remains, deletion: Entry, other: AccountKey)
    requires IsSchema(schema) && IsComplete(before) && IsComplete(after) && other != deletion.key
    requires Begun(before, after, deletion)
    ensures Spared(schema, before, after, other, false)
  {
    BeginKeeps(before, after, deletion, other);
    TidyJournal(schema, Content(before.files[Journal]));
    TidyJournal(schema, Content(after.files[Journal]));
    forall name: Name
      ensures ReadsAlike(schema, name, before.files[name], after.files[name], other)
    {
    }
  }

  lemma BegunThenAttempted(schema: Schema, before: Remains, begun: Remains, after: Remains, deletion: Entry,
                           cleared: bool)
    requires IsSchema(schema) && IsComplete(before) && IsComplete(begun) && IsComplete(after)
    requires OnlyJournalChanged(before, begun)
    requires Content(begun.files[Journal]) == With(Content(before.files[Journal]), deletion)
    requires Attempts(schema, begun, after, deletion.key, cleared)
    ensures RequestKeeps(schema, before, after, deletion.key, cleared) && Settled(after, deletion.key)
  {
    BeginKeeps(before, begun, deletion, deletion.key);
    WithOf(Content(before.files[Journal]), deletion, deletion.key);
    AttemptsKeepSettled(schema, begun, after, deletion.key, cleared, deletion.key);
    assert KeepsCatalog(before, after, cleared);
    forall other | other != deletion.key
      ensures Spared(schema, before, after, other, cleared)
    {
      BeginSpares(schema, before, begun, deletion, other);
      AttemptSpares(schema, begun, after, deletion.key, cleared, other);
      SparedCompose(schema, before, begun, after, other, false, cleared);
    }
  }

  // ---- Interrupted attempts converge ----

  /** An attempt, cut off or not, does not change what a finished attempt leaves. */
  lemma AttemptKeepsOutcome(schema: Schema, before: Remains, between: Remains, after: Remains, account: AccountKey,
                            cleared: bool)
    requires IsSchema(schema) && IsComplete(before) && IsComplete(between) && IsComplete(after)
    requires Attempts(schema, before, between, account, cleared) && IsFinished(schema, between, after, account)
    ensures IsFinished(schema, before, after, account)
  {
    forall name: Name
      ensures after.files[name] == Finished(schema, name, before.files[name], account)
    {
      assert IsTrimmed(schema, name, before.files[name], between.files[name], account);
      TrimmedHasSameGoal(schema, name, before.files[name], between.files[name], account);
    }
  }

  /** What one attempt, cut off anywhere, left. */
  datatype Interruption = Interruption(after: Remains, cleared: bool)

  function LeftAfter(before: Remains, interruptions: seq<Interruption>): Remains {
    if interruptions == [] then before else interruptions[|interruptions| - 1].after
  }

  ghost predicate AreInterruptions(schema: Schema, before: Remains, interruptions: seq<Interruption>,
                                   account: AccountKey)
  {
    interruptions == []
    || (var init, last := interruptions[..|interruptions| - 1], interruptions[|interruptions| - 1];
        && IsComplete(LeftAfter(before, init)) && IsComplete(last.after)
        && Attempts(schema, LeftAfter(before, init), last.after, account, last.cleared)
        && AreInterruptions(schema, before, init, account))
  }

  lemma {:induction false} OutcomeIsKept(schema: Schema, before: Remains, interruptions: seq<Interruption>,
                                         account: AccountKey, resumed: Remains)
    requires IsSchema(schema) && IsComplete(before) && AreInterruptions(schema, before, interruptions, account)
    requires IsComplete(LeftAfter(before, interruptions)) && IsComplete(resumed)
    requires IsFinished(schema, LeftAfter(before, interruptions), resumed, account)
    ensures IsFinished(schema, before, resumed, account)
  {
    if interruptions != [] {
      var init, last := interruptions[..|interruptions| - 1], interruptions[|interruptions| - 1];
      AttemptKeepsOutcome(schema, LeftAfter(before, init), last.after, resumed, account, last.cleared);
      OutcomeIsKept(schema, before, init, account, resumed);
    }
  }

  lemma OutcomeIsUnique(schema: Schema, before: Remains, a: Remains, b: Remains, account: AccountKey)
    requires IsComplete(before) && IsComplete(a) && IsComplete(b)
    requires IsFinished(schema, before, a, account) && IsFinished(schema, before, b, account)
    ensures a.files == b.files && a.snapshots == b.snapshots
  {
  }

  /** Cut off and resumed any number of times, a deletion that finishes in the end leaves the
      documents, the backups and the snapshot rows that it leaves when nothing interrupts it. */
  lemma InterruptedDeletionConverges(schema: Schema, before: Remains, interruptions: seq<Interruption>,
                                     account: AccountKey, resumed: Remains, straight: Remains)
    requires IsSchema(schema) && IsComplete(before) && AreInterruptions(schema, before, interruptions, account)
    requires IsComplete(LeftAfter(before, interruptions)) && IsComplete(resumed) && IsComplete(straight)
    requires IsFinished(schema, LeftAfter(before, interruptions), resumed, account)
    requires IsFinished(schema, before, straight, account)
    ensures resumed.files == straight.files && resumed.snapshots == straight.snapshots
  {
    OutcomeIsKept(schema, before, interruptions, account, resumed);
    OutcomeIsUnique(schema, before, resumed, straight, account);
  }

  // ---- Resuming a journal ----

  predicate AreOpaque(ids: seq<string>) { forall id <- ids :: IsOpaqueId(id) }

  /** An entry whose artwork ids the artwork store takes. One it refuses stops the deletion before
      its end, whatever the disk does. */
  predicate IsFinishable(e: Entry) { AreOpaque(e.values) }

  /** What an unrefused disk leaves of the journal after the first `n` of its deletions were tried. */
  function Remaining(pending: seq<Entry>, n: nat): seq<Entry>
    requires n <= |pending|
  {
    if n == 0 then pending
    else if IsFinishable(pending[n - 1]) then Without(Remaining(pending, n - 1), pending[n - 1].key)
    else Remaining(pending, n - 1)
  }

  predicate HasFinishable(pending: seq<Entry>, n: nat, account: AccountKey)
    requires n <= |pending|
  {
    exists k | 0 <= k < n :: pending[k].key == account && IsFinishable(pending[k])
  }

  lemma {:induction false} RemainingOf(pending: seq<Entry>, n: nat, account: AccountKey)
    requires n <= |pending|
    ensures Of(Remaining(pending, n), account)
      == if HasFinishable(pending, n, account) then [] else Of(pending, account)
  {
    if n > 0 {
      RemainingOf(pending, n - 1, account);
      WithoutOf(Remaining(pending, n - 1), pending[n - 1].key, account);
    }
  }

  /** What a resumed journal keeps is malformed, and every account with only malformed entries is
      kept. */
  lemma LeftoversAreMalformed(pending: seq<Entry>)
    ensures forall e <- Remaining(pending, |pending|) :: !IsFinishable(e)
    ensures forall account :: Holds(Remaining(pending, |pending|), account)
              <==> Holds(pending, account) && !HasFinishable(pending, |pending|, account)
  {
    var left := Remaining(pending, |pending|);
    forall account
      ensures Of(left, account) == if HasFinishable(pending, |pending|, account) then [] else Of(pending, account)
    {
      RemainingOf(pending, |pending|, account);
    }
    forall e | e in left
      ensures !IsFinishable(e)
    {
      var k :| 0 <= k < |left| && left[k] == e;
      MemberOf(left, k);
      OfMembers(pending, e.key, e);
      var i :| 0 <= i < |pending| && pending[i] == e;
    }
  }

  lemma {:induction false} DistinctEntry(entries: seq<Entry>, i: nat, j: nat)
    requires Distinct(entries) && i < |entries| && j < |entries| && entries[i].key == entries[j].key
    ensures i == j
  {
    if i == 0 && j > 0 {
      MemberOf(entries[1..], j - 1);
    } else if j == 0 && i > 0 {
      MemberOf(entries[1..], i - 1);
    } else if i > 0 && j > 0 {
      DistinctEntry(entries[1..], i - 1, j - 1);
    }
  }

  /** A journal of distinct accounts, as `begin` keeps it, empties if and only if every artwork id in
      it is well formed. */
  lemma JournalEmptiesExactly(pending: seq<Entry>)
    requires Distinct(pending)
    ensures Remaining(pending, |pending|) == [] <==> forall e <- pending :: AreOpaque(e.values)
  {
    var left := Remaining(pending, |pending|);
    LeftoversAreMalformed(pending);
    if left != [] {
      MemberOf(left, 0);
      RemainingOf(pending, |pending|, left[0].key);
      OfMembers(pending, left[0].key, left[0]);
    }
    if k :| 0 <= k < |pending| && !IsFinishable(pending[k]) {
      if i :| 0 <= i < |pending| && pending[i].key == pending[k].key && IsFinishable(pending[i]) {
        DistinctEntry(pending, i, k);
      }
      MemberOf(pending, k);
      assert Holds(left, pending[k].key);
    }
  }

  /** What resuming the first `n` recorded deletions may do, each cut off anywhere: no recorded account
      is lost track of, the others are spared, and malformed entries stay listed. */
  ghost predicate Resumes(schema: Schema, start: Remains, after: Remains, n: nat, cleared: bool)
    requires IsComplete(start) && IsComplete(after) && n <= |Content(start.files[Journal])|
  {
    && Advances(start, after) && KeepsCatalog(start, after, cleared)
    && (forall other | !Recorded(start, other) :: Spared(schema, start, after, other, cleared))
    && forall other | !HasFinishable(Content(start.files[Journal]), n, other) ::
         Listed(after, other) == Listed(start, other)
  }

  lemma ResumesOneMore(schema: Schema, start: Remains, before: Remains, after: Remains, n: nat, cleared: bool,
                       now: bool)
    requires IsSchema(schema) && IsComplete(start) && IsComplete(before) && IsComplete(after)
    requires n < |Content(start.files[Journal])| && Resumes(schema, start, before, n, cleared)
    requires var e := Content(start.files[Journal])[n];
             Attempts(schema, before, after, e.key, now)
             && (!IsFinishable(e) ==> after.files[Journal] == before.files[Journal])
    ensures Resumes(schema, start, after, n + 1, cleared || now)
  {
    var pending := Content(start.files[Journal]);
    var account := pending[n].key;
    AttemptsAdvance(schema, before, after, account, now);
    AdvancesCompose(start, before, after);
    MemberOf(pending, n);
    forall other | !Recorded(start, other)
      ensures Spared(schema, start, after, other, cleared || now)
    {
      AttemptSpares(schema, before, after, account, now, other);
      SparedCompose(schema, start, before, after, other, cleared, now);
    }
    forall other | !HasFinishable(pending, n + 1, other)
      ensures Listed(after, other) == Listed(start, other)
    {
      assert !HasFinishable(pending, n, other);
      if other != account {
        AttemptSpares(schema, before, after, account, now, other);
      } else {
        assert !IsFinishable(pending[n]);
      }
    }
  }

  /** The documents go whatever the artwork ids are, all the rest only if they are well formed. */
  predicate WasTried(after: Remains, deletion: Entry)
    requires IsComplete(after)
  {
    Scrubbed(after.files, deletion.key) && (IsFinishable(deletion) ==> Gone(after, deletion.key))
  }

  /** What an unrefused disk leaves after the first `n` recorded deletions were tried. */
  ghost predicate AllTried(after: Remains, pending: seq<Entry>, n: nat)
    requires IsComplete(after) && n <= |pending|
  {
    && Content(after.files[Journal]) == Remaining(pending, n)
    && forall k | 0 <= k < n :: WasTried(after, pending[k])
  }

  lemma OneMoreTried(schema: Schema, before: Remains, after: Remains, pending: seq<Entry>, n: nat)
    requires IsSchema(schema) && IsComplete(before) && IsComplete(after)
    requires n < |pending| && AllTried(before, pending, n) && Advances(before, after)
    requires if IsFinishable(pending[n])
             then IsFinished(schema, before, after, pending[n].key)
             else after.files[Journal] == before.files[Journal]
    requires WasTried(after, pending[n])
    ensures AllTried(after, pending, n + 1)
  {
    TidyJournal(schema, Content(before.files[Journal]));
    forall k | 0 <= k < n + 1
      ensures WasTried(after, pending[k])
    {
      assert Progress(before, after, pending[k].key);
    }
  }

  /** What a deletion reads and changes: what it leaves to the next process, the artwork, the account
      in memory, and whether the disk refused a write. */
  datatype View = View(left: Remains, artwork: set<string>, account: Option<AccountKey>, refused: bool)

  /** What holds of one attempt, cut off or not. By itself it stops at a malformed artwork id only. */
  ghost predicate Proceeds(schema: Schema, before: View, after: View, deletion: Entry, ok: bool, cleared: bool) {
    && IsComplete(before.left) && IsComplete(after.left)
    && Attempts(schema, before.left, after.left, deletion.key, cleared)
    && (!IsFinishable(deletion) ==> !ok && !cleared && after.left.files[Journal] == before.left.files[Journal])
    && (!after.refused ==> Scrubbed(after.left.files, deletion.key) && (ok <==> IsFinishable(deletion)))
    && (if ok then after.refused == before.refused else before.refused ==> after.refused)
    && before.artwork - (set id <- deletion.values) <= after.artwork <= before.artwork
    && (ok ==> after.artwork !! (set id <- deletion.values))
    && (if cleared then before.account == Some(deletion.key) && after.account.None?
        else after.account == before.account)
    && (ok && before.account == Some(deletion.key) ==> cleared)
  }

  /** An attempt that gets to its end leaves nothing that holds the account. */
  ghost predicate Completes(schema: Schema, before: View, after: View, deletion: Entry, ok: bool, cleared: bool) {
    && Proceeds(schema, before, after, deletion, ok, cleared)
    && (ok ==> IsDone(after.left, deletion.key) && IsFinished(schema, before.left, after.left, deletion.key))
  }

  datatype Attempt = Attempt(ok: bool, cleared: bool, after: View)

  function End(start: View, attempts: seq<Attempt>): View {
    if attempts == [] then start else attempts[|attempts| - 1].after
  }

  predicate Cleared(attempts: seq<Attempt>) { exists attempt <- attempts :: attempt.cleared }

  /** The recorded deletions were tried in order, each once. */
  ghost predicate IsResumption(schema: Schema, start: View, pending: seq<Entry>, attempts: seq<Attempt>) {
    |attempts| <= |pending| && forall i | 0 <= i < |attempts| :: IsAttempt(schema, start, pending, attempts, i)
  }

  ghost predicate IsAttempt(schema: Schema, start: View, pending: seq<Entry>, attempts: seq<Attempt>, i: nat)
    requires i < |attempts| <= |pending|
  {
    Completes(schema, End(start, attempts[..i]), attempts[i].after, pending[i], attempts[i].ok, attempts[i].cleared)
  }

  lemma ResumptionExtends(schema: Schema, start: View, pending: seq<Entry>, attempts: seq<Attempt>, attempt: Attempt)
    requires |attempts| < |pending| && IsResumption(schema, start, pending, attempts)
    requires Completes(schema, End(start, attempts), attempt.after, pending[|attempts|], attempt.ok, attempt.cleared)
    ensures IsResumption(schema, start, pending, attempts + [attempt])
  {
    var longer := attempts + [attempt];
    forall i | 0 <= i < |longer|
      ensures IsAttempt(schema, start, pending, longer, i)
    {
      assert longer[..i] == attempts[..i];
      if i < |attempts| {
        assert IsAttempt(schema, start, pending, attempts, i);
      } else {
        assert attempts[..i] == attempts;
      }
    }
  }

  lemma ResumptionShortens(schema: Schema, start: View, pending: seq<Entry>, attempts: seq<Attempt>)
    requires attempts != [] && IsResumption(schema, start, pending, attempts)
    ensures var n := |attempts| - 1;
            && IsResumption(schema, start, pending, attempts[..n])
            && Completes(schema, End(start, attempts[..n]), attempts[n].after, pending[n], attempts[n].ok,
                         attempts[n].cleared)
  {
    var n := |attempts| - 1;
    assert IsAttempt(schema, start, pending, attempts, n);
    forall i | 0 <= i < n
      ensures IsAttempt(schema, start, pending, attempts[..n], i)
    {
      assert attempts[..n][..i] == attempts[..i];
      assert IsAttempt(schema, start, pending, attempts, i);
    }
  }

  /** Whatever is refused, no recorded account is lost track of, the others are spared, and malformed
      entries stay listed. */
  lemma {:induction false} ResumptionKeeps(schema: Schema, start: View, attempts: seq<Attempt>)
    requires IsSchema(schema) && IsComplete(start.left)
    requires IsResumption(schema, start, Content(start.left.files[Journal]), attempts)
    ensures IsComplete(End(start, attempts).left)
    ensures Resumes(schema, start.left, End(start, attempts).left, |attempts|, Cleared(attempts))
  {
    if attempts != [] {
      var n := |attempts| - 1;
      ResumptionShortens(schema, start, Content(start.left.files[Journal]), attempts);
      ResumptionKeeps(schema, start, attempts[..n]);
      ResumesOneMore(schema, start.left, End(start, attempts[..n]).left, attempts[n].after.left, n,
                     Cleared(attempts[..n]), attempts[n].cleared);
      ClearedOneMore(attempts);
    }
  }

  lemma ClearedOneMore(attempts: seq<Attempt>)
    requires attempts != []
    ensures var n := |attempts| - 1; Cleared(attempts) == (Cleared(attempts[..n]) || attempts[n].cleared)
  {
    var n := |attempts| - 1;
    assert attempts == attempts[..n] + [attempts[n]];
  }

  /** Where nothing is refused, the journal keeps nothing but malformed entries, and the accounts of
      the others are gone. */
  lemma {:induction false} ResumptionTries(schema: Schema, start: View, attempts: seq<Attempt>)
    requires IsSchema(schema) && IsComplete(start.left)
    requires IsResumption(schema, start, Content(start.left.files[Journal]), attempts)
    requires !End(start, attempts).refused
    ensures !start.refused && IsComplete(End(start, attempts).left)
    ensures AllTried(End(start, attempts).left, Content(start.left.files[Journal]), |attempts|)
  {
    if attempts != [] {
      var pending, n := Content(start.left.files[Journal]), |attempts| - 1;
      var before, after := End(start, attempts[..n]).left, attempts[n].after.left;
      ResumptionShortens(schema, start, pending, attempts);
      ResumptionTries(schema, start, attempts[..n]);
      AttemptsAdvance(schema, before, after, pending[n].key, attempts[n].cleared);
      OneMoreTried(schema, before, after, pending, n);
    }
  }

  /** The session is cleared only if its account was listed with well-formed artwork ids, and then
      always, unless a write is refused. */
  lemma {:induction false} ResumptionClears(schema: Schema, start: View, pending: seq<Entry>, attempts: seq<Attempt>)
    requires IsResumption(schema, start, pending, attempts)
    ensures var after, account := End(start, attempts), start.account;
            && after.account == (if Cleared(attempts) then None else account)
            && (Cleared(attempts) ==> account.Some? && HasFinishable(pending, |attempts|, account.value))
            && (account.Some? && HasFinishable(pending, |attempts|, account.value) ==>
                  Cleared(attempts) || after.refused)
  {
    if attempts != [] {
      var n := |attempts| - 1;
      ResumptionShortens(schema, start, pending, attempts);
      ResumptionClears(schema, start, pending, attempts[..n]);
      ClearedOneMore(attempts);
      if start.account.Some? {
        FinishableOneMore(pending, n, start.account.value);
      }
    }
  }

  /** Artwork that went belonged to a deletion that was tried. */
  predicate ArtworkTried(before: set<string>, after: set<string>, pending: seq<Entry>, n: nat)
    requires n <= |pending|
  {
    after <= before && forall id <- before - after :: exists k | 0 <= k < n :: id in pending[k].values
  }

  lemma ArtworkOneMore(start: set<string>, before: set<string>, after: set<string>, pending: seq<Entry>, n: nat)
    requires n < |pending| && ArtworkTried(start, before, pending, n)
    requires before - (set id <- pending[n].values) <= after <= before
    ensures ArtworkTried(start, after, pending, n + 1)
  {
    forall id | id in start - after
      ensures exists k | 0 <= k < n + 1 :: id in pending[k].values
    {
      if id in before {
        assert id in pending[n].values;
      } else {
        assert id in start - before;
      }
    }
  }

  lemma FinishableOneMore(pending: seq<Entry>, n: nat, account: AccountKey)
    requires n < |pending|
    ensures HasFinishable(pending, n + 1, account)
      <==> HasFinishable(pending, n, account) || (pending[n].key == account && IsFinishable(pending[n]))
  {
  }

  lemma {:induction false} ResumptionKeepsArtwork(schema: Schema, start: View, pending: seq<Entry>,
                                                  attempts: seq<Attempt>)
    requires IsResumption(schema, start, pending, attempts)
    ensures ArtworkTried(start.artwork, End(start, attempts).artwork, pending, |attempts|)
  {
    if attempts != [] {
      var n := |attempts| - 1;
      ResumptionShortens(schema, start, pending, attempts);
      ResumptionKeepsArtwork(schema, start, pending, attempts[..n]);
      ArtworkOneMore(start.artwork, End(start, attempts[..n]).artwork, attempts[n].after.artwork, pending, n);
    }
  }

  /** What an attempt that nothing refuses does to everybody's memberships can be told before it: they
      go if and only if the account is the signed-in one and its artwork ids are well formed. If a
      write is refused they may stay then, too. */
  lemma MembershipsSurviveExactly(schema: Schema, before: View, after: View, deletion: Entry, ok: bool, cleared: bool,
                                  other: AccountKey)
    requires Completes(schema, before, after, deletion, ok, cleared) && other != deletion.key
    ensures var ends := before.account == Some(deletion.key) && IsFinishable(deletion);
            && (!after.refused || !ends ==>
                  cleared == ends && KeepsMemberships(before.left, after.left, other, ends)
                  && KeepsCatalog(before.left, after.left, ends))
  {
    OthersSurviveUnlessCleared(schema, before.left, after.left, deletion.key, cleared, other);
  }

  /** And where nothing is refused, all artwork of the deletions that end goes. */
  lemma {:induction false} ResumptionTakesArtwork(schema: Schema, start: View, pending: seq<Entry>,
                                                  attempts: seq<Attempt>, k: nat, id: string)
    requires IsResumption(schema, start, pending, attempts) && !End(start, attempts).refused
    requires k < |attempts| && IsFinishable(pending[k]) && id in pending[k].values
    ensures id !in End(start, attempts).artwork
  {
    var n := |attempts| - 1;
    ResumptionShortens(schema, start, pending, attempts);
    if k < n {
      ResumptionTakesArtwork(schema, start, pending, attempts[..n], k, id);
    }
  }

  // ---- One account over a start ----

  /** The account is done, or listed with malformed entries only. */
  predicate IsHandled(left: Remains, account: AccountKey)
    requires IsComplete(left)
  {
    IsDone(left, account) || (Recorded(left, account) && forall e <- Listed(left, account) :: !IsFinishable(e))
  }

  /** If the account is listed or gone at all, it is handled, and no document holds it. */
  predicate IsCleanedUp(left: Remains, account: AccountKey)
    requires IsComplete(left)
  {
    Settled(left, account) ==> IsHandled(left, account) && Scrubbed(left.files, account)
  }

  /** The account is listed, or gone, or has every document entry and snapshot row it had. */
  ghost predicate IsSafe(schema: Schema, origin: Remains, left: Remains, account: AccountKey)
    requires IsComplete(origin) && IsComplete(left)
  {
    Settled(left, account) || Untouched(schema, origin, left, account)
  }

  lemma UntouchedStaysSafe(schema: Schema, origin: Remains, before: Remains, after: Remains, account: AccountKey)
    requires IsComplete(origin) && IsComplete(before) && IsComplete(after)
    requires IsSafe(schema, origin, before, account) && Untouched(schema, before, after, account)
    requires Settled(before, account) ==> Settled(after, account)
    ensures IsSafe(schema, origin, after, account)
  {
    forall name: Name | !Settled(before, account)
      ensures ReadsAlike(schema, name, origin.files[name], after.files[name], account)
    {
      assert ReadsAlike(schema, name, origin.files[name], before.files[name], account);
      assert ReadsAlike(schema, name, before.files[name], after.files[name], account);
    }
  }

  lemma SparedStaysSafe(schema: Schema, origin: Remains, before: Remains, after: Remains, account: AccountKey,
                        cleared: bool)
    requires IsComplete(origin) && IsComplete(before) && IsComplete(after)
    requires Spared(schema, before, after, account, cleared)
    ensures Settled(before, account) ==> Settled(after, account)
    ensures IsSafe(schema, origin, before, account) ==> IsSafe(schema, origin, after, account)
    ensures IsCleanedUp(before, account) ==> IsCleanedUp(after, account)
  {
    if IsSafe(schema, origin, before, account) {
      UntouchedStaysSafe(schema, origin, before, after, account);
    }
  }

  /** A sign-in writes no document and no snapshot row. Only a sign-in as a deleted account brings it
      back. */
  lemma SignInStaysSafe(schema: Schema, origin: Remains, before: Remains, after: Remains, account: AccountKey)
    requires IsComplete(origin) && IsComplete(before) && IsSafe(schema, origin, before, account)
    requires after.files == before.files && after.snapshots == before.snapshots
    requires after.store.memberships <= before.store.memberships
    requires Settled(before, account) ==> (StoredFor(after.store, account) ==> StoredFor(before.store, account))
    ensures IsSafe(schema, origin, after, account) && (Settled(before, account) ==> Settled(after, account))
    ensures IsCleanedUp(before, account) ==> IsCleanedUp(after, account)
  {
    UntouchedStaysSafe(schema, origin, before, after, account);
  }

  lemma {:induction false} WithUnlisted(entries: seq<Entry>, deletion: Entry)
    requires !Holds(entries, deletion.key)
    ensures Of(With(entries, deletion), deletion.key) == [deletion]
  {
    if entries != [] {
      WithUnlisted(entries[1..], deletion);
    }
  }

  /** The account's own request. */
  lemma RequestStaysSafe(schema: Schema, origin: Remains, before: Remains, after: Remains, account: AccountKey,
                         cleared: bool)
    requires IsSchema(schema) && IsComplete(origin) && IsComplete(before) && IsComplete(after)
    requires IsSafe(schema, origin, before, account) && RequestKeeps(schema, before, after, account, cleared)
    ensures IsSafe(schema, origin, after, account)
  {
    if !Settled(after, account) {
      TidyJournal(schema, Content(before.files[Journal]));
      TidyJournal(schema, Content(after.files[Journal]));
      forall name: Name
        ensures ReadsAlike(schema, name, before.files[name], after.files[name], account)
      {
      }
      UntouchedStaysSafe(schema, origin, before, after, account);
    }
  }

  /** Where nothing is refused, it ends, or lists the account with the malformed ids it found. An
      account that was cleaned up has no ids. */
  lemma RequestHandles(before: Remains, after: Remains, deletion: Entry, ok: bool)
    requires IsComplete(before) && IsComplete(after) && IsCleanedUp(before, deletion.key)
    requires Scrubbed(before.files, deletion.key) ==> IsFinishable(deletion)
    requires if ok then IsDone(after, deletion.key)
             else !IsFinishable(deletion)
                  && Content(after.files[Journal]) == With(Content(before.files[Journal]), deletion)
    ensures IsHandled(after, deletion.key)
  {
    if !ok {
      assert !Recorded(before, deletion.key);
      WithUnlisted(Content(before.files[Journal]), deletion);
    }
  }

  /** Resuming does not lose track of an account, and where nothing is refused it handles it. */
  lemma ResumptionStaysSafe(schema: Schema, origin: Remains, start: View, attempts: seq<Attempt>, account: AccountKey)
    requires IsSchema(schema) && IsComplete(origin) && IsComplete(start.left)
    requires IsSafe(schema, origin, start.left, account) && |attempts| == |Content(start.left.files[Journal])|
    requires IsResumption(schema, start, Content(start.left.files[Journal]), attempts)
    ensures var after := End(start, attempts);
            && IsComplete(after.left) && IsSafe(schema, origin, after.left, account)
            && (Settled(start.left, account) ==> Settled(after.left, account))
            && (!after.refused ==> IsCleanedUp(after.left, account))
  {
    ResumptionKeeps(schema, start, attempts);
    assert Progress(start.left, End(start, attempts).left, account);
    if !Settled(start.left, account) {
      SparedStaysSafe(schema, origin, start.left, End(start, attempts).left, account, Cleared(attempts));
    }
    if !End(start, attempts).refused {
      ResumptionCleansUp(schema, start, attempts, account);
    }
  }

  lemma ResumptionCleansUp(schema: Schema, start: View, attempts: seq<Attempt>, account: AccountKey)
    requires IsSchema(schema) && IsComplete(start.left) && |attempts| == |Content(start.left.files[Journal])|
    requires IsResumption(schema, start, Content(start.left.files[Journal]), attempts)
    requires !End(start, attempts).refused
    ensures IsComplete(End(start, attempts).left) && IsCleanedUp(End(start, attempts).left, account)
  {
    var pending, end := Content(start.left.files[Journal]), End(start, attempts);
    ResumptionKeeps(schema, start, attempts);
    assert Progress(start.left, end.left, account);
    ResumptionTries(schema, start, attempts);
    LeftoversAreMalformed(pending);
    if Recorded(end.left, account) {
      OfMembers(pending, account, Listed(start.left, account)[0]);
      assert exists k | 0 <= k < |pending| :: pending[k] == Listed(start.left, account)[0];
    }
    forall e | e in Listed(end.left, account)
      ensures !IsFinishable(e)
    {
      OfMembers(Content(end.left.files[Journal]), account, e);
    }
  }

  /** The smallest journal that never empties: one account with the poster id "x". */
  lemma MalformedIdStaysListed(account: AccountKey)
    ensures var pending := [Entry(account, ["x"])]; Remaining(pending, |pending|) == pending
  {
    assert !IsOpaqueId("x");
    var e := Entry(account, ["x"]);
    assert "x" in e.values;
  }
}
