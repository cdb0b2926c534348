/** What every run of the account session guarantees, for any number of scopes and answers in
    flight and any interleaving. */
module SessionRuns {
  import opened Basics
  import opened AccountSession

  datatype Step =
    | SignIn(serverUrl: string, credentials: Credentials, faults: Faults)
    | ClearLocal(forgetLibrary: bool, fails: bool)
    | BeginDeletion(account: AccountKey)
    | Failure(scope: Scope, error: ApiError)
    | Commit(scope: Scope, write: Writer)
    | Connect(url: string)
    | Restart

  function Next(world: World, step: Step): World {
    match step
    case SignIn(url, credentials, faults) => SignedIn(world, url, credentials, faults).0
    case ClearLocal(forget, fails) => LocalCleared(world, forget, fails).0
    case BeginDeletion(account) => DeletionBegun(world, account).0
    case Failure(scope, error) => FailureRouted(world, scope, error).0
    case Commit(scope, write) => Committed(world, scope, write).0
    case Connect(url) => world.(session := world.session.(serverUrl := Some(url)))
    case Restart => Started(world.store)
  }

  /** The worlds a run passes through, one more than its steps. */
  ghost predicate IsRun(worlds: seq<World>, steps: seq<Step>) {
    && |worlds| == |steps| + 1 && (forall i | 0 <= i < |steps| :: worlds[i + 1] == Next(worlds[i], steps[i]))
    && forall i | 0 <= i < |steps| :: IsPossible(steps[i])
  }

  ghost predicate IsPossible(step: Step) { step.Commit? ==> IsTyped(step.write) }

  // ---- Cache isolation ----

  ghost predicate AllWrittenFor(items: map<string, Row>, account: (string, string)) {
    forall id <- items :: items[id].writtenFor == AccountKey(account.0, account.1)
  }

  function CacheOwner(store: Store): Option<(string, string)> {
    if store.Owner().Some? then store.Owner() else store.credentials.Account()
  }

  /** The stored owner, when there is one, owns every row, and is the stored account. The owner
      keys come and go together. */
  ghost predicate StoreConsistent(store: Store) {
    && (store.ownerServer.Some? <==> store.ownerUser.Some?)
    && (store.Owner().Some? && store.credentials.Account().Some? ==> store.Owner() == store.credentials.Account())
    && (CacheOwner(store).Some? ==> AllWrittenFor(store.items, CacheOwner(store).value))
  }

  /** The account in memory owns every row too. The store may disagree with memory in one way: it
      may have lost its account and owner, when a sign-in cleared the cache and then failed to
      save. */
  ghost predicate Isolated(world: World) {
    var session, store := world.session, world.store;
    && StoreConsistent(store)
    && (session.Account().Some? ==>
          var account := (session.serverId.value, session.userId.value);
          AllWrittenFor(store.items, account) && (CacheOwner(store).Some? ==> CacheOwner(store).value == account))
  }

  lemma SignInKeepsIsolation(world: World, url: string, credentials: Credentials, faults: Faults)
    requires Isolated(world)
    ensures Isolated(SignedIn(world, url, credentials, faults).0)
  {
    if !SwitchesAccount(world.store, credentials) {
      assert CacheOwner(world.store).None? ==> |world.store.items.Keys| == 0;
    }
  }

  lemma ClearKeepsIsolation(world: World, forgetLibrary: bool, fails: bool)
    requires Isolated(world)
    ensures Isolated(LocalCleared(world, forgetLibrary, fails).0)
  {
  }

  lemma CommitKeepsIsolation(world: World, scope: Scope, write: Writer)
    requires Isolated(world) && IsTyped(write)
    ensures Isolated(Committed(world, scope, write).0)
  {
    if world.session.IsCurrent(scope.generation, scope.account) {
      assert scope.account == AccountKey(world.session.serverId.value, world.session.userId.value);
      var live := Live(scope.generation, scope.account);
      assert AddsFor(world.store, write(live, world.store).0, live.account);
    }
  }

  lemma StepKeepsIsolation(world: World, step: Step)
    requires Isolated(world) && IsPossible(step)
    ensures Isolated(Next(world, step))
  {
    match step
    case SignIn(url, credentials, faults) => SignInKeepsIsolation(world, url, credentials, faults);
    case ClearLocal(forget, fails) => ClearKeepsIsolation(world, forget, fails);
    case Commit(scope, write) => CommitKeepsIsolation(world, scope, write);
    case _ =>
  }

  /** Under any interleaving of sign-in, sign-out, expiry, deletion, restart and commit, with any
      storage write failing, every cached row was written for the account the session holds. */
  lemma {:induction false} CacheIsolation(worlds: seq<World>, steps: seq<Step>, n: nat)
    requires IsRun(worlds, steps) && n <= |steps|
    requires StoreConsistent(worlds[0].store) && worlds[0] == Started(worlds[0].store)
    ensures Isolated(worlds[n])
    ensures var account, items := worlds[n].session.Account(), worlds[n].store.items;
            account.Some? ==> forall id <- items :: items[id].writtenFor == account.value
  {
    if n > 0 {
      CacheIsolation(worlds, steps, n - 1);
      StepKeepsIsolation(worlds[n - 1], steps[n - 1]);
    }
  }

  /** Why the sign-in also tests for unowned rows: a sign-in that cleared the cache and failed to
      save leaves the old account signed in over a store that names no owner, and whatever that
      account then caches is recognised later by the row count alone. */
  lemma ClearedThenUnsavedOrphansRows(world: World, url: string, credentials: Credentials, scope: Scope,
                                      rows: map<string, string>)
    requires SwitchesAccount(world.store, credentials)
    requires world.session.IsCurrent(scope.generation, scope.account) && rows != map[]
    ensures var failed := SignedIn(world, url, credentials, Faults(false, true)).0;
            var answer := Scoped(scope.generation, scope.account, rows);
            var later := Committed(failed, scope, UpsertAnswer(answer, {}, false)).0;
            && later.store.Owner().None? && later.store.credentials.Account().None?
            && |later.store.items| > 0
            && SwitchesAccount(later.store, credentials)
  {
    var id :| id in rows;
    var failed := SignedIn(world, url, credentials, Faults(false, true)).0;
    var answer := Scoped(scope.generation, scope.account, rows);
    var later := Committed(failed, scope, UpsertAnswer(answer, {}, false)).0;
    var live := Live(scope.generation, scope.account);
    assert Opened(live, answer) == Some(rows) && failed.session == world.session;
    var drops: set<string> := {};
    assert UpsertAnswer(answer, drops, false)(live, failed.store).0 == later.store;
    assert later.store.items == RowsWritten(failed.store.items, scope.account, rows) - drops;
    assert id in later.store.items.Keys;
  }

  // ---- What a sign-in keeps and answers ----

  /** The account the rows belong to keeps all of them. */
  lemma OwnerKeepsTheCache(world: World, url: string, credentials: Credentials, faults: Faults)
    requires CacheOwner(world.store) == Some((credentials.serverId, credentials.userId))
    ensures var (next, answer) := SignedIn(world, url, credentials, faults);
            && next.store.items == world.store.items && next.store.memberships == world.store.memberships
            && next.store.others == world.store.others
            && answer == if faults.saveFails then Err(Storage) else Ok(false)
  {
  }

  /** The whole answer. The account has switched exactly when the rows are known to be another's, or
      nobody's is known and there are items; then every table is emptied first. */
  lemma SwitchExactly(world: World, url: string, credentials: Credentials, faults: Faults)
    ensures var (next, answer) := SignedIn(world, url, credentials, faults);
            var owner := CacheOwner(world.store);
            var switches := if owner.Some? then owner != Some((credentials.serverId, credentials.userId))
                            else world.store.items != map[];
            && answer == (if (switches && faults.clearFails) || faults.saveFails then Err(Storage) else Ok(switches))
            && (switches && !faults.clearFails ==>
                  next.store.items == map[] && next.store.memberships == {} && next.store.others == map[])
            && (switches && faults.clearFails ==> next == world)
            && (answer.Err? ==> next.session == world.session)
  {
    assert world.store.items == map[] <==> |world.store.items| == 0;
  }

  /** Signing out without forgetting the library, and in again as the same account, loses no row,
      whatever session the process restores in between. */
  lemma SignOutAndBackKeepsTheCache(world: World, url: string, credentials: Credentials)
    requires StoreConsistent(world.store)
    requires world.store.credentials.Account() == Some((credentials.serverId, credentials.userId))
    ensures var out := LocalCleared(world, false, false).0;
            var (back, answer) := SignedIn(Started(out.store), url, credentials, Faults(false, false));
            && answer == Ok(false) && back.store.items == world.store.items
            && back.store.memberships == world.store.memberships && back.store.others == world.store.others
  {
  }

  /** A finished sign-in is usable at once and after a restart, with what the server answered. */
  lemma SignedInStaysIn(world: World, url: string, credentials: Credentials, faults: Faults)
    requires SignedIn(world, url, credentials, faults).1.Ok?
    ensures var next := SignedIn(world, url, credentials, faults).0;
            var account := NewAccountKey(credentials.serverId, credentials.userId);
            && next.store.Owner() == Some((credentials.serverId, credentials.userId))
            && IsSessionOf(next.session, url, credentials)
            && IsSessionOf(Started(next.store).session, url, credentials)
            && (account.Some? ==>
                  && IssueScope(next.session) == Ok(Scope(next.session.generation, account.value))
                  && IssueScope(Started(next.store).session) == Ok(Scope(1, account.value)))
  {
  }

  predicate IsSessionOf(session: SessionState, url: string, credentials: Credentials) {
    && session.serverUrl == Some(url) && session.token == Some(credentials.token)
    && session.serverId == Some(credentials.serverId) && session.userId == Some(credentials.userId)
    && !session.expired && !session.deleting
  }

  /** After a sign-out neither memory nor the store knows the user or the token, so no scope is issued,
      not even after a restart; the server is remembered. */
  lemma SignedOutStaysOut(world: World, forgetLibrary: bool)
    ensures var out := LocalCleared(world, forgetLibrary, false).0;
            && out.session.userId.None? && out.session.token.None? && IssueScope(out.session) == Err(NotConfigured)
            && out.store.credentials.userId.None? && out.store.credentials.token.None?
            && IssueScope(Started(out.store).session) == Err(NotConfigured)
            && out.session.serverUrl == world.session.serverUrl
            && out.store.credentials.serverUrl == world.store.credentials.serverUrl
            && out.store.credentials.serverId == world.store.credentials.serverId
  {
  }

  /** A scope is issued exactly to a complete session that is neither expired nor being deleted, and
      it is the session's own. */
  lemma ScopeIssuedExactly(session: SessionState, scope: Scope)
    ensures IssueScope(session) == Ok(scope)
      <==> && !session.expired && !session.deleting && session.serverUrl.Some? && session.token.Some?
           && session.serverId == Some(scope.account.serverId) && session.userId == Some(scope.account.userId)
           && !IsBlank(scope.account.serverId) && !IsBlank(scope.account.userId)
           && scope.generation == session.generation
    ensures session.expired || session.deleting <==> IssueScope(session) == Err(Unauthorized)
  {
  }

  /** An account that is being deleted answers nothing more in this process. */
  lemma DeletionEndsScopes(world: World, account: AccountKey)
    requires world.session.Account() == Some(account)
    ensures IssueScope(DeletionBegun(world, account).0.session) == Err(Unauthorized)
    ensures DeletionBegun(world, account).0.store == world.store
  {
  }

  /** A commit of one answer under its own, current scope: the rows it names are those of the answer,
      the dropped ones are gone, and no other row is touched. */
  lemma CommittedAnswerHolds(world: World, scope: Scope, rows: map<string, string>, drops: set<string>, id: string)
    requires world.session.IsCurrent(scope.generation, scope.account)
    ensures var answer := Scoped(scope.generation, scope.account, rows);
            var (next, r) := Committed(world, scope, UpsertAnswer(answer, drops, false));
            && r == Ok(()) && next.session == world.session
            && (id in drops ==> id !in next.store.items)
            && (id in rows && id !in drops ==>
                  id in next.store.items && next.store.items[id] == Row(scope.account, rows[id]))
            && (id !in rows && id !in drops ==>
                  (id in next.store.items <==> id in world.store.items)
                  && (id in world.store.items ==> next.store.items[id] == world.store.items[id]))
  {
    var answer, live := Scoped(scope.generation, scope.account, rows), Live(scope.generation, scope.account);
    var items := RowsWritten(world.store.items, scope.account, rows) - drops;
    assert Opened(live, answer) == Some(rows);
    assert UpsertAnswer(answer, drops, false)(live, world.store) == (world.store.(items := items), Ok(()));
    assert Committed(world, scope, UpsertAnswer(answer, drops, false)).0.store.items == items;
  }

  // ---- The tables the sign-in does not count ----

  /** The rows of all catalog tables are those of the stored owner and of the account in memory. */
  ghost predicate AllTablesIsolated(world: World) {
    var session, store := world.session, world.store;
    && Isolated(world)
    && (CacheOwner(store).Some? ==> AllWrittenFor(store.others, CacheOwner(store).value))
    && (session.Account().Some? ==> AllWrittenFor(store.others, (session.serverId.value, session.userId.value)))
  }

  /** A sign-in that saves, to a store that names no owner and has no items, but rows of somebody
      else in another table: the sign-in counts items alone. */
  ghost predicate Inherits(world: World, step: Step) {
    && step.SignIn? && !step.faults.saveFails
    && CacheOwner(world.store).None? && world.store.items == map[]
    && !AllWrittenFor(world.store.others, (step.credentials.serverId, step.credentials.userId))
  }

  lemma SignInIsolatesUnlessInherits(world: World, url: string, credentials: Credentials, faults: Faults)
    requires AllTablesIsolated(world)
    ensures var next := SignedIn(world, url, credentials, faults).0;
            && (AllTablesIsolated(next) <==> !Inherits(world, SignIn(url, credentials, faults)))
            && (Inherits(world, SignIn(url, credentials, faults)) ==>
                  next.session.Account() == NewAccountKey(credentials.serverId, credentials.userId)
                  && next.store.others == world.store.others)
  {
    SignInKeepsIsolation(world, url, credentials, faults);
    if CacheOwner(world.store).None? {
      assert SwitchesAccount(world.store, credentials) <==> |world.store.items.Keys| > 0;
    }
  }

  /** Every other step keeps all tables isolated, and such a sign-in never does: unless its account
      is no account, it is the account in memory, over a row of another. */
  lemma StepIsolatesUnlessInherits(world: World, step: Step)
    requires AllTablesIsolated(world) && IsPossible(step)
    ensures AllTablesIsolated(Next(world, step)) <==> !Inherits(world, step)
    ensures Inherits(world, step) ==>
              var account, others := Next(world, step).session.Account(), Next(world, step).store.others;
              account == NewAccountKey(step.credentials.serverId, step.credentials.userId)
              && (account.Some? ==> exists id <- others :: others[id].writtenFor != account.value)
  {
    StepKeepsIsolation(world, step);
    match step
    case SignIn(url, credentials, faults) => SignInIsolatesUnlessInherits(world, url, credentials, faults);
    case Commit(scope, write) =>
      if world.session.IsCurrent(scope.generation, scope.account) {
        assert scope.account == AccountKey(world.session.serverId.value, world.session.userId.value);
        assert AddsFor(world.store, write(Live(scope.generation, scope.account), world.store).0, scope.account);
      }
    case _ =>
  }

  /** In every run, all tables of all worlds up to the n-th are isolated if and only if no step on
      the way is such a sign-in. */
  lemma {:induction false} AllTablesIsolatedExactly(worlds: seq<World>, steps: seq<Step>, n: nat)
    requires IsRun(worlds, steps) && n <= |steps| && AllTablesIsolated(worlds[0])
    ensures (forall i | 0 <= i <= n :: AllTablesIsolated(worlds[i]))
      <==> forall i | 0 <= i < n :: !Inherits(worlds[i], steps[i])
  {
    if n > 0 {
      AllTablesIsolatedExactly(worlds, steps, n - 1);
      if AllTablesIsolated(worlds[n - 1]) {
        StepIsolatesUnlessInherits(worlds[n - 1], steps[n - 1]);
        assert worlds[n - 1 + 1] == Next(worlds[n - 1], steps[n - 1]) && IsPossible(steps[n - 1]);
      }
    }
  }

  // ---- Where no such sign-in happens ----

  /** A sign-in that clears the cache and then fails to save. */
  predicate Orphans(world: World, step: Step) {
    && step.SignIn? && SwitchesAccount(world.store, step.credentials)
    && !step.faults.clearFails && step.faults.saveFails
  }

  /** Until one did that, a store that holds anything names an owner, and the account in memory is
      the owner. */
  ghost predicate IsOwned(world: World) {
    var session, store := world.session, world.store;
    && AllTablesIsolated(world)
    && (CacheOwner(store).None? ==> store.others == map[])
    && (session.Account().Some? ==> CacheOwner(store).Some?)
  }

  lemma StepKeepsOwned(world: World, step: Step)
    requires IsOwned(world) && IsPossible(step) && !Orphans(world, step)
    ensures IsOwned(Next(world, step)) && !Inherits(world, step)
  {
    StepIsolatesUnlessInherits(world, step);
  }

  /** So in a run without a sign-in that cleared and did not save, the rows of all catalog tables are
      the account's. */
  lemma {:induction false} AllTablesIsolation(worlds: seq<World>, steps: seq<Step>, n: nat)
    requires IsRun(worlds, steps) && n <= |steps| && IsOwned(worlds[0])
    requires forall i | 0 <= i < |steps| :: !Orphans(worlds[i], steps[i])
    ensures IsOwned(worlds[n]) && forall i | 0 <= i < n :: !Inherits(worlds[i], steps[i])
    ensures var account, others := worlds[n].session.Account(), worlds[n].store.others;
            account.Some? ==> forall id <- others :: others[id].writtenFor == account.value
  {
    if n > 0 {
      AllTablesIsolation(worlds, steps, n - 1);
      StepKeepsOwned(worlds[n - 1], steps[n - 1]);
    }
  }

  // ---- The run that needs the condition ----

  function KeyOf(credentials: Credentials): AccountKey { AccountKey(credentials.serverId, credentials.userId) }

  /** The first account signs in, the second clears the cache and fails to save, the first commits
      once more and signs out, the second signs in. */
  function OrphaningSteps(url: string, first: Credentials, second: Credentials, id: string, content: string):
    seq<Step>
  {
    var scope := Scope(1, KeyOf(first));
    [SignIn(url, first, Faults(false, false)), SignIn(url, second, Faults(false, true)),
     Commit(scope, SaveOther(id, content)), Commit(scope, SaveMemberships()),
     ClearLocal(false, false), SignIn(url, second, Faults(false, false))]
  }

  /** It ends with rows of the first account under the second: the sign-in counts items alone. And
      signing out with the library, which is what a deletion does, takes the memberships of every
      account. */
  lemma OrphanedRowsAreInherited(url: string, first: Credentials, second: Credentials, id: string, content: string)
    returns (worlds: seq<World>)
    requires KeyOf(first) != KeyOf(second)
    requires NewAccountKey(first.serverId, first.userId).Some? && NewAccountKey(second.serverId, second.userId).Some?
    ensures IsRun(worlds, OrphaningSteps(url, first, second, id, content)) && worlds[0] == Started(EMPTY_STORE)
    ensures AllTablesIsolated(worlds[0]) && Inherits(worlds[5], OrphaningSteps(url, first, second, id, content)[5])
    ensures var last := worlds[|worlds| - 1];
            && last.session.Account() == Some(KeyOf(second))
            && id in last.store.others && last.store.others[id].writtenFor == KeyOf(first)
            && last.store.memberships == {KeyOf(first)}
            && LocalCleared(last, true, false).0.store.memberships == {}
  {
    var steps := OrphaningSteps(url, first, second, id, content);
    var w0 := Started(EMPTY_STORE);
    var w1 := Next(w0, steps[0]);
    var w2 := Next(w1, steps[1]);
    var w3 := Next(w2, steps[2]);
    var w4 := Next(w3, steps[3]);
    var w5 := Next(w4, steps[4]);
    var w6 := Next(w5, steps[5]);
    worlds := [w0, w1, w2, w3, w4, w5, w6];
    SavesAreTyped(id, content);
    assert w1.session.IsCurrent(1, KeyOf(first)) && w1.store.items == map[];
    assert SwitchesAccount(w1.store, second);
    assert w2.session == w1.session && CacheOwner(w2.store).None? && w2.store.memberships == {};
    assert w3.store.others == map[id := Row(KeyOf(first), content)] && w3.session == w1.session;
    assert w4.store == w3.store.(memberships := {KeyOf(first)}) && w4.session == w1.session;
    assert CacheOwner(w5.store).None? && w5.store.items == map[];
    assert id in w5.store.others && w5.store.others[id].writtenFor == KeyOf(first);
  }
}
