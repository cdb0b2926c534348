/** The signed-in account and the cache it owns (`src/jellyfin/session.rs` and
    `src/library/session_store.rs`), as values and as one function per operation. Cached rows
    carry the account whose answer they came from; the source keeps no such tag. */
module AccountSession {
  import opened Basics

  datatype AccountKey = AccountKey(serverId: string, userId: string)

  /** `AccountKey::new`: no account has a blank id. */
  function NewAccountKey(serverId: string, userId: string): Option<AccountKey> {
    if IsBlank(serverId) || IsBlank(userId) then None else Some(AccountKey(serverId, userId))
  }

  // ---- The durable store ----

  datatype StoredCredentials = StoredCredentials(
    serverUrl: Option<string>, serverId: Option<string>, userId: Option<string>, token: Option<string>)
  {
    predicate IsAuthenticated() { token.Some? && userId.Some? && serverId.Some? && serverUrl.Some? }

    function Account(): Option<(string, string)> { Zip(serverId, userId) }
  }

  function Zip<A, B>(a: Option<A>, b: Option<B>): Option<(A, B)> {
    if a.Some? && b.Some? then Some((a.value, b.value)) else None
  }

  datatype Row = Row(writtenFor: AccountKey, content: string)

  /** The credentials row, the two owner keys of the `meta` table, and the rest of the catalog
      tables: `items`, the accounts with rows in `franchise_movie_membership`, and all others. */
  datatype Store = Store(
    credentials: StoredCredentials, ownerServer: Option<string>, ownerUser: Option<string>,
    items: map<string, Row>, memberships: set<AccountKey>, others: map<string, Row>)
  {
    function Owner(): Option<(string, string)> { Zip(ownerServer, ownerUser) }
  }

  const EMPTY_STORE := Store(StoredCredentials(None, None, None, None), None, None, map[], {}, map[])

  function CredentialsSaved(store: Store, stored: StoredCredentials): Store {
    var store := store.(credentials := stored);
    if stored.Account().Some? then store.(ownerServer := stored.serverId, ownerUser := stored.userId) else store
  }

  function SessionCleared(store: Store, forgetLibrary: bool): Store {
    var account := store.credentials.Account();
    var store :=
      if !forgetLibrary && account.Some?
      then store.(ownerServer := Some(account.value.0), ownerUser := Some(account.value.1)) else store;
    var store := store.(credentials := store.credentials.(userId := None, token := None));
    if forgetLibrary
    then store.(ownerServer := None, ownerUser := None, items := map[], memberships := {}, others := map[]) else store
  }

  // ---- The session of one process ----

  const GENERATIONS := 0x1_0000_0000_0000_0000

  type Generation = g: nat | g < GENERATIONS

  /** `wrapping_add(1).max(1)` on 64 bits. */
  function NextGeneration(generation: Generation): Generation {
    var next := if generation == GENERATIONS - 1 then 0 else generation + 1;
    if next < 1 then 1 else next
  }

  datatype SessionState = SessionState(
    serverUrl: Option<string>, serverId: Option<string>, userId: Option<string>, token: Option<string>,
    expired: bool, deleting: bool, generation: Generation)
  {
    function Account(): Option<AccountKey> {
      if serverId.Some? && userId.Some? then NewAccountKey(serverId.value, userId.value) else None
    }

    predicate IsCurrent(generation: Generation, account: AccountKey) {
      !expired && !deleting && this.generation == generation && Account() == Some(account)
    }

    predicate ExpiredItself(generation: Generation, account: AccountKey) {
      expired && !deleting && this.generation == NextGeneration(generation) && Account() == Some(account)
    }

    predicate OwnsFailure(scope: Scope) {
      IsCurrent(scope.generation, scope.account) || ExpiredItself(scope.generation, scope.account)
    }

    // The four ways a session moves to its next generation.

    function Replaced(serverUrl: string, credentials: Credentials): SessionState {
      SessionState(Some(serverUrl), Some(credentials.serverId), Some(credentials.userId), Some(credentials.token),
                   false, false, NextGeneration(generation))
    }

    function Emptied(): SessionState {
      SessionState(serverUrl, None, None, None, false, false, NextGeneration(generation))
    }

    function MarkedForDeletion(): SessionState {
      this.(generation := NextGeneration(generation), deleting := true)
    }

    function TokenRejected(): SessionState {
      this.(expired := true, generation := NextGeneration(generation))
    }
  }

  datatype Scope = Scope(generation: Generation, account: AccountKey)
  datatype Live = Live(generation: Generation, account: AccountKey)

  /** A sealed answer: the rows fetched as one account under one generation. */
  datatype Scoped = Scoped(generation: Generation, account: AccountKey, rows: map<string, string>)

  datatype ApiError = Unauthorized | NotConfigured | AccountChanged | Storage | OtherError
  datatype Credentials = Credentials(serverId: string, userId: string, token: string)

  /** Which of the two writes of a sign-in the disk refuses. */
  datatype Faults = Faults(clearFails: bool, saveFails: bool)

  /** One process: its session, the store, and how often it told the shell that the session
      expired. */
  datatype World = World(session: SessionState, store: Store, announced: nat)

  function Restored(store: Store): SessionState {
    var c := store.credentials;
    SessionState(c.serverUrl, c.serverId, c.userId, c.token, false, false, if c.IsAuthenticated() then 1 else 0)
  }

  function Started(store: Store): World { World(Restored(store), store, 0) }

  function IssueScope(session: SessionState): Result<Scope, ApiError> {
    if session.expired || session.deleting then Err(Unauthorized)
    else if session.serverUrl.None? || session.token.None? || session.Account().None? then Err(NotConfigured)
    else Ok(Scope(session.generation, session.Account().value))
  }

  function Opened(live: Live, scoped: Scoped): Option<map<string, string>> {
    if scoped.generation == live.generation && scoped.account == live.account then Some(scoped.rows) else None
  }

  function Confirmed(session: SessionState, scoped: Scoped): Result<map<string, string>, ApiError> {
    if session.IsCurrent(scoped.generation, scoped.account) then Ok(scoped.rows)
    else if session.ExpiredItself(scoped.generation, scoped.account) then Err(Unauthorized)
    else Err(AccountChanged)
  }

  function RowsWritten(items: map<string, Row>, account: AccountKey, rows: map<string, string>): map<string, Row> {
    items + map id | id in rows :: Row(account, rows[id])
  }

  /** A commit's work: the store it leaves, finished or not, and its answer. */
  type Writer = (Live, Store) -> (Store, Result<(), ApiError>)

  /** Under the gate: if the scope is current, the work is done with a `Live` proof. */
  function Committed(world: World, scope: Scope, write: Writer): (World, Result<(), ApiError>) {
    if !world.session.IsCurrent(scope.generation, scope.account) then (world, Err(AccountChanged))
    else
      var (store, answer) := write(Live(scope.generation, scope.account), world.store);
      (world.(store := store), answer)
  }

  /** What the `Live` proof makes of a commit's work: new rows come from answers it opened, which
      are the live account's, and the session's own rows are not its business. */
  ghost predicate IsTyped(write: Writer) {
    forall live, store :: AddsFor(store, write(live, store).0, live.account)
  }

  predicate AddsFor(before: Store, after: Store, account: AccountKey) {
    && after.credentials == before.credentials
    && after.ownerServer == before.ownerServer && after.ownerUser == before.ownerUser
    && OnlyAdds(before.items, after.items, account) && OnlyAdds(before.others, after.others, account)
    && after.memberships <= before.memberships + {account}
  }

  predicate OnlyAdds(before: map<string, Row>, after: map<string, Row>, account: AccountKey) {
    forall id <- after :: after[id].writtenFor == account || (id in before && after[id] == before[id])
  }

  /** The usual work: open one answer, upsert its rows and drop some ids, in one transaction. */
  function UpsertAnswer(answer: Scoped, drops: set<string>, fails: bool): Writer {
    (live: Live, store: Store) =>
      match Opened(live, answer)
      case None => (store, Err(AccountChanged))
      case Some(rows) =>
        if fails then (store, Err(Storage))
        else (store.(items := RowsWritten(store.items, answer.account, rows) - drops), Ok(()))
  }

  lemma UpsertAnswerIsTyped(answer: Scoped, drops: set<string>, fails: bool)
    ensures IsTyped(UpsertAnswer(answer, drops, fails))
  {
    var write := UpsertAnswer(answer, drops, fails);
    forall live, store
      ensures AddsFor(store, write(live, store).0, live.account)
    {
      var rows := Opened(live, answer);
      if rows.Some? && !fails {
        assert write(live, store).0 == store.(items := RowsWritten(store.items, answer.account, rows.value) - drops);
      } else {
        assert write(live, store).0 == store;
      }
    }
  }

  /** A finished franchise refresh: membership rows of the account, whatever else is cached. */
  function SaveMemberships(): Writer {
    (live: Live, store: Store) => (store.(memberships := store.memberships + {live.account}), Ok(()))
  }

  /** One row of a table other than `items`, such as a library of the server. */
  function SaveOther(id: string, content: string): Writer {
    (live: Live, store: Store) => (store.(others := store.others[id := Row(live.account, content)]), Ok(()))
  }

  lemma SavesAreTyped(id: string, content: string)
    ensures IsTyped(SaveMemberships()) && IsTyped(SaveOther(id, content))
  {
  }

  /** Whether a sign-in finds rows it must not inherit. */
  predicate SwitchesAccount(store: Store, credentials: Credentials) {
    var owner := if store.Owner().Some? then store.Owner() else store.credentials.Account();
    || (owner.Some? && owner.value != (credentials.serverId, credentials.userId))
    || (owner.None? && |store.items| > 0)
  }

  function SignedIn(world: World, serverUrl: string, credentials: Credentials, faults: Faults):
    (World, Result<bool, ApiError>)
  {
    var switched := SwitchesAccount(world.store, credentials);
    if switched && faults.clearFails then (world, Err(Storage))
    else
      var store := if switched then SessionCleared(world.store, true) else world.store;
      if faults.saveFails then (world.(store := store), Err(Storage))
      else
        var stored := StoredCredentials(
          Some(serverUrl), Some(credentials.serverId), Some(credentials.userId), Some(credentials.token));
        (world.(store := CredentialsSaved(store, stored), session := world.session.Replaced(serverUrl, credentials)),
         Ok(switched))
  }

  function LocalCleared(world: World, forgetLibrary: bool, fails: bool): (World, bool) {
    if fails then (world, false)
    else
      (world.(store := SessionCleared(world.store, forgetLibrary), session := world.session.Emptied()), true)
  }

  function DeletionBegun(world: World, account: AccountKey): (World, bool) {
    if world.session.Account() != Some(account) then (world, false)
    else (world.(session := world.session.MarkedForDeletion()), true)
  }

  function FailureRouted(world: World, scope: Scope, error: ApiError): (World, ApiError) {
    if !world.session.OwnsFailure(scope) then (world, AccountChanged)
    else if error != Unauthorized || world.session.expired then (world, error)
    else (world.(session := world.session.TokenRejected(), announced := world.announced + 1), error)
  }

  // ---- The same operations, as the source performs them ----

  class Library {
    var store: Store

    constructor (store: Store)
      ensures this.store == store
    {
      this.store := store;
    }

    method SaveCredentials(stored: StoredCredentials, fails: bool) returns (ok: bool)
      modifies this
      ensures ok == !fails && store == if ok then CredentialsSaved(old(store), stored) else old(store)
    {
      if fails {
        return false;
      }
      store := store.(credentials := stored);
      if stored.serverId.Some? && stored.userId.Some? {
        store := store.(ownerServer := stored.serverId);
        store := store.(ownerUser := stored.userId);
      }
      ok := true;
    }

    method ClearSession(forgetLibrary: bool, fails: bool) returns (ok: bool)
      modifies this
      ensures ok == !fails && store == if ok then SessionCleared(old(store), forgetLibrary) else old(store)
    {
      if fails {
        return false;
      }
      if !forgetLibrary {
        var c := store.credentials;
        if c.serverId.Some? && c.userId.Some? {
          store := store.(ownerServer := c.serverId);
          store := store.(ownerUser := c.userId);
        }
      }
      store := store.(credentials := store.credentials.(userId := None, token := None));
      if forgetLibrary {
        store := store.(items := map[], memberships := {}, others := map[]);
        store := store.(ownerServer := None, ownerUser := None);
      }
      ok := true;
    }
  }

  class Session {
    const library: Library
    var state: SessionState
    var announced: nat

    function View(): World
      reads this, library
    {
      World(state, library.store, announced)
    }

    constructor Restore(library: Library)
      ensures this.library == library && View() == Started(library.store)
    {
      this.library := library;
      var c := library.store.credentials;
      state := SessionState(c.serverUrl, c.serverId, c.userId, c.token, false, false,
                            if c.IsAuthenticated() then 1 else 0);
      announced := 0;
    }

    method CommitCredentials(serverUrl: string, credentials: Credentials, faults: Faults)
      returns (r: Result<bool, ApiError>)
      modifies this, library
      ensures (View(), r) == SignedIn(old(View()), serverUrl, credentials, faults)
    {
      var previous := library.store.credentials;
      var cacheOwner := library.store.Owner();
      if cacheOwner.None? {
        cacheOwner := Zip(previous.serverId, previous.userId);
      }
      var nextOwner := (credentials.serverId, credentials.userId);
      var switchedAccount :=
        (cacheOwner.Some? && cacheOwner.value != nextOwner) || (cacheOwner.None? && |library.store.items| > 0);
      if switchedAccount {
        var cleared := library.ClearSession(true, faults.clearFails);
        if !cleared {
          return Err(Storage);
        }
      }
      var stored := StoredCredentials(
        Some(serverUrl), Some(credentials.serverId), Some(credentials.userId), Some(credentials.token));
      var saved := library.SaveCredentials(stored, faults.saveFails);
      if !saved {
        return Err(Storage);
      }
      state := state.(serverUrl := Some(serverUrl));
      state := state.(serverId := Some(credentials.serverId), userId := Some(credentials.userId));
      state := state.(token := Some(credentials.token));
      state := state.(expired := false, deleting := false);
      state := state.(generation := NextGeneration(state.generation));
      r := Ok(switchedAccount);
    }

    method ClearLocal(forgetLibrary: bool, fails: bool) returns (ok: bool)
      modifies this, library
      ensures (View(), ok) == LocalCleared(old(View()), forgetLibrary, fails)
    {
      ok := library.ClearSession(forgetLibrary, fails);
      if ok {
        state := state.(userId := None, serverId := None, token := None);
        state := state.(expired := false, deleting := false);
        state := state.(generation := NextGeneration(state.generation));
      }
    }

    method BeginAccountDeletion(account: AccountKey) returns (begun: bool)
      modifies this
      ensures (View(), begun) == DeletionBegun(old(View()), account)
    {
      if state.Account() != Some(account) {
        return false;
      }
      state := state.(generation := NextGeneration(state.generation));
      state := state.(deleting := true);
      begun := true;
    }

    method ScopedError(scope: Scope, error: ApiError) returns (answer: ApiError)
      modifies this
      ensures (View(), answer) == FailureRouted(old(View()), scope, error)
    {
      if !state.OwnsFailure(scope) {
        return AccountChanged;
      }
      if error != Unauthorized || state.expired {
        return error;
      }
      state := state.(expired := true);
      state := state.(generation := NextGeneration(state.generation));
      announced := announced + 1;
      answer := error;
    }

    method CommitIfCurrent(scope: Scope, write: Writer) returns (r: Result<(), ApiError>)
      modifies library
      ensures (View(), r) == Committed(old(View()), scope, write)
    {
      if !state.IsCurrent(scope.generation, scope.account) {
        return Err(AccountChanged);
      }
      var (store, answer) := write(Live(scope.generation, scope.account), library.store);
      library.store := store;
      r := answer;
    }
  }
}
