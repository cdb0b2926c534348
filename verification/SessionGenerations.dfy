/** Generations, expiry and announcements within one process run. Only the session matters here,
    so a run is a list of session events; `SessionFollowsEvents` maps every run of the whole
    system to one. */
module SessionGenerations {
  import opened Basics
  import opened AccountSession
  import SessionRuns

  datatype Event =
    | SignedInAs(serverUrl: string, credentials: Credentials)
    | Cleared
    | DeletionAsked(account: AccountKey)
    | Failed(scope: Scope, error: ApiError)
    | Connected(url: string)
    | Unrelated

  predicate RejectsToken(session: SessionState, scope: Scope, error: ApiError) {
    error == Unauthorized && !session.expired && session.OwnsFailure(scope)
  }

  function Next(session: SessionState, event: Event): SessionState {
    match event
    case SignedInAs(url, credentials) => session.Replaced(url, credentials)
    case Cleared => session.Emptied()
    case DeletionAsked(account) => if session.Account() == Some(account) then session.MarkedForDeletion() else session
    case Failed(scope, error) => if RejectsToken(session, scope, error) then session.TokenRejected() else session
    case Connected(url) => session.(serverUrl := Some(url))
    case Unrelated => session
  }

  /** The session after the first `n` events. */
  function After(session: SessionState, events: seq<Event>, n: nat): SessionState
    requires n <= |events|
  {
    if n == 0 then session else Next(After(session, events, n - 1), events[n - 1])
  }

  // ---- Every run of the whole system is such a run ----

  /** What one step of the system does to the session; failed writes do nothing. */
  function EventOf(world: World, step: SessionRuns.Step): Event {
    match step
    case SignIn(url, credentials, faults) =>
      if SignedIn(world, url, credentials, faults).1.Ok? then SignedInAs(url, credentials) else Unrelated
    case ClearLocal(_, fails) => if fails then Unrelated else Cleared
    case BeginDeletion(account) => DeletionAsked(account)
    case Failure(scope, error) => Failed(scope, error)
    case Connect(url) => Connected(url)
    case Commit(_, _) | Restart => Unrelated
  }

  lemma StepIsEvent(world: World, step: SessionRuns.Step)
    requires !step.Restart?
    ensures var event := EventOf(world, step);
            && SessionRuns.Next(world, step).session == Next(world.session, event)
            && SessionRuns.Next(world, step).announced
                 == world.announced + if Announces(world.session, event) then 1 else 0
  {
  }

  /** The session of any one-process run of the system is the session of its events, and the
      shell's counter moves exactly on announcements. */
  lemma {:induction false} SessionFollowsEvents(worlds: seq<World>, steps: seq<SessionRuns.Step>,
                                                events: seq<Event>, n: nat)
    requires SessionRuns.IsRun(worlds, steps) && SessionRuns.Restart !in steps && n <= |steps| == |events|
    requires forall i | 0 <= i < |steps| :: events[i] == EventOf(worlds[i], steps[i])
    ensures worlds[n].session == After(worlds[0].session, events, n)
    ensures n == 0 || worlds[n].announced - worlds[n - 1].announced
                        == if Announces(After(worlds[0].session, events, n - 1), events[n - 1]) then 1 else 0
  {
    if n > 0 {
      SessionFollowsEvents(worlds, steps, events, n - 1);
      StepIsEvent(worlds[n - 1], steps[n - 1]);
    }
  }

  // ---- Counting generations ----

  /** `next_generation` skips zero, so it repeats after this many steps. */
  const PERIOD := GENERATIONS - 1

  /** Whether an event moves the session to its next generation. */
  predicate Bumps(session: SessionState, event: Event) {
    match event
    case SignedInAs(_, _) | Cleared => true
    case DeletionAsked(account) => session.Account() == Some(account)
    case Failed(scope, error) => RejectsToken(session, scope, error)
    case Connected(_) | Unrelated => false
  }

  /** The events that moved the generation, in order. */
  function BumpEvents(session: SessionState, events: seq<Event>, n: nat): seq<Event>
    requires n <= |events|
  {
    if n == 0 then []
    else if Bumps(After(session, events, n - 1), events[n - 1])
    then BumpEvents(session, events, n - 1) + [events[n - 1]]
    else BumpEvents(session, events, n - 1)
  }

  /** The generation `k` steps later, up to one period. */
  function Advanced(generation: Generation, k: nat): Generation
    requires k <= PERIOD
  {
    if k == 0 then generation else if generation + k > PERIOD then generation + k - PERIOD else generation + k
  }

  lemma StepGeneration(session: SessionState, event: Event)
    ensures Next(session, event).generation
      == if Bumps(session, event) then NextGeneration(session.generation) else session.generation
    ensures !Bumps(session, event) ==> Next(session, event).(serverUrl := None) == session.(serverUrl := None)
  {
  }

  lemma {:induction false} GenerationAfter(session: SessionState, events: seq<Event>, n: nat)
    requires n <= |events| && |BumpEvents(session, events, n)| <= PERIOD
    ensures After(session, events, n).generation == Advanced(session.generation, |BumpEvents(session, events, n)|)
  {
    if n > 0 {
      GenerationAfter(session, events, n - 1);
      StepGeneration(After(session, events, n - 1), events[n - 1]);
    }
  }

  /** Events that leave the generation leave everything a scope is checked against. */
  lemma {:induction false} QuietEventsChangeNothing(session: SessionState, events: seq<Event>, n: nat)
    requires n <= |events| && BumpEvents(session, events, n) == []
    ensures After(session, events, n).(serverUrl := None) == session.(serverUrl := None)
  {
    if n > 0 {
      QuietEventsChangeNothing(session, events, n - 1);
      StepGeneration(After(session, events, n - 1), events[n - 1]);
    }
  }

  // ---- When an answer opens ----

  /** An answer fetched under the scope a session issues. */
  function AnswerOf(session: SessionState, rows: map<string, string>): Scoped
    requires IssueScope(session).Ok?
  {
    Scoped(IssueScope(session).value.generation, IssueScope(session).value.account, rows)
  }

  /** An answer opens exactly when no generation step happened since its scope was issued, as long
      as fewer steps happened than the generations take to repeat. */
  lemma OpensExactlyWhenNothingHappened(session: SessionState, events: seq<Event>, n: nat, rows: map<string, string>)
    requires n <= |events| && IssueScope(session).Ok? && |BumpEvents(session, events, n)| < PERIOD
    ensures Confirmed(After(session, events, n), AnswerOf(session, rows)).Ok? <==> BumpEvents(session, events, n) == []
  {
    if BumpEvents(session, events, n) == [] {
      QuietEventsChangeNothing(session, events, n);
    } else {
      GenerationAfter(session, events, n);
    }
  }

  /** The bound is the real one: after exactly one period an old answer for the same, live account
      opens again. */
  lemma OpensAgainAfterOnePeriod(session: SessionState, events: seq<Event>, n: nat, rows: map<string, string>)
    requires n <= |events| && IssueScope(session).Ok? && 0 < session.generation
    requires |BumpEvents(session, events, n)| == PERIOD
    requires var later := After(session, events, n);
             !later.expired && !later.deleting && later.Account() == session.Account()
    ensures Confirmed(After(session, events, n), AnswerOf(session, rows)).Ok?
  {
    GenerationAfter(session, events, n);
  }

  lemma {:induction false} SignInsBump(session: SessionState, events: seq<Event>, n: nat, url: string, who: Credentials)
    requires n <= |events| && forall i | 0 <= i < n :: events[i] == SignedInAs(url, who)
    ensures |BumpEvents(session, events, n)| == n
    ensures n > 0 ==> var later := After(session, events, n);
                      !later.expired && !later.deleting && later.Account() == NewAccountKey(who.serverId, who.userId)
  {
    if n > 0 {
      SignInsBump(session, events, n - 1, url, who);
    }
  }

  /** Such a run exists: one period of sign-ins as the same account. The old answer is refused all
      the way through and opens at the end. */
  lemma OnePeriodOfSignIns(session: SessionState, url: string, who: Credentials, rows: map<string, string>, n: nat)
    requires IssueScope(session).Ok? && 0 < session.generation
    requires NewAccountKey(who.serverId, who.userId) == session.Account()
    requires 0 < n <= PERIOD
    ensures var events := seq(PERIOD, i => SignedInAs(url, who));
            Confirmed(After(session, events, n), AnswerOf(session, rows)).Ok? <==> n == PERIOD
  {
    var events := seq(PERIOD, i => SignedInAs(url, who));
    SignInsBump(session, events, n, url, who);
    if n == PERIOD {
      OpensAgainAfterOnePeriod(session, events, n, rows);
    } else {
      OpensExactlyWhenNothingHappened(session, events, n, rows);
    }
  }

  lemma {:induction false} BumpEventsGrow(session: SessionState, events: seq<Event>, m: nat, n: nat)
    requires m <= n <= |events|
    ensures BumpEvents(session, events, m) <= BumpEvents(session, events, n)
  {
    if m < n {
      BumpEventsGrow(session, events, m, n - 1);
    }
  }

  /** Once refused, refused forever. */
  lemma RefusalIsFinal(session: SessionState, events: seq<Event>, m: nat, n: nat, rows: map<string, string>)
    requires m <= n <= |events| && IssueScope(session).Ok? && |BumpEvents(session, events, n)| < PERIOD
    requires Confirmed(After(session, events, m), AnswerOf(session, rows)).Err?
    ensures Confirmed(After(session, events, n), AnswerOf(session, rows)).Err?
  {
    BumpEventsGrow(session, events, m, n);
    OpensExactlyWhenNothingHappened(session, events, m, rows);
    OpensExactlyWhenNothingHappened(session, events, n, rows);
  }

  /** Inside a commit, `Live::open` opens exactly the answers `confirm` would open. */
  lemma LiveOpensWhatConfirmOpens(session: SessionState, scope: Scope, answer: Scoped)
    requires session.IsCurrent(scope.generation, scope.account)
    ensures Opened(Live(scope.generation, scope.account), answer).Some? <==> Confirmed(session, answer).Ok?
  {
  }

  // ---- Expiry ----

  lemma FirstStep(session: SessionState, event: Event)
    requires IssueScope(session).Ok? && Bumps(session, event)
    ensures Next(session, event).expired <==> event.Failed?
    ensures event.Failed? ==> && event == Failed(IssueScope(session).value, Unauthorized)
                              && !Next(session, event).deleting
                              && Next(session, event).Account() == session.Account()
  {
  }

  /** After exactly one generation step, the session is expired exactly when that step was the
      rejected token of the scope issued before it. */
  lemma {:induction false} OneStepExpires(session: SessionState, events: seq<Event>, n: nat)
    requires n <= |events| && IssueScope(session).Ok? && |BumpEvents(session, events, n)| == 1
    ensures var later, step := After(session, events, n), BumpEvents(session, events, n)[0];
            && (later.expired <==> step.Failed?)
            && (step.Failed? ==> && step == Failed(IssueScope(session).value, Unauthorized)
                                 && !later.deleting && later.Account() == session.Account())
  {
    var before := After(session, events, n - 1);
    if Bumps(before, events[n - 1]) {
      QuietEventsChangeNothing(session, events, n - 1);
      assert IssueScope(before.(serverUrl := session.serverUrl)) == IssueScope(session);
      FirstStep(before.(serverUrl := session.serverUrl), events[n - 1]);
    } else {
      OneStepExpires(session, events, n - 1);
      StepGeneration(before, events[n - 1]);
    }
  }

  /** `confirm` answers `Unauthorized` exactly when the one generation step since the answer's
      scope was issued is that scope's own rejected token. */
  lemma ExpiryIsClassifiedExactly(session: SessionState, events: seq<Event>, n: nat, rows: map<string, string>)
    requires n <= |events| && IssueScope(session).Ok? && |BumpEvents(session, events, n)| < PERIOD
    ensures Confirmed(After(session, events, n), AnswerOf(session, rows)) == Err(Unauthorized)
      <==> BumpEvents(session, events, n) == [Failed(IssueScope(session).value, Unauthorized)]
  {
    var steps := BumpEvents(session, events, n);
    GenerationAfter(session, events, n);
    if steps == [] {
      QuietEventsChangeNothing(session, events, n);
    } else if |steps| == 1 {
      OneStepExpires(session, events, n);
      assert steps == [steps[0]];
    }
  }

  /** A failure reaches its caller as it is while its account is the current one, or the single step
      since was its own rejected token; after any other step it is a changed account. */
  lemma FailureIsRoutedExactly(session: SessionState, events: seq<Event>, n: nat, error: ApiError, store: Store,
                               announced: nat)
    requires n <= |events| && IssueScope(session).Ok? && |BumpEvents(session, events, n)| < PERIOD
    ensures var scope, steps := IssueScope(session).value, BumpEvents(session, events, n);
            FailureRouted(World(After(session, events, n), store, announced), scope, error).1
              == if steps == [] || steps == [Failed(scope, Unauthorized)] then error else AccountChanged
  {
    var rows: map<string, string> := map[];
    OpensExactlyWhenNothingHappened(session, events, n, rows);
    ExpiryIsClassifiedExactly(session, events, n, rows);
  }

  // ---- Announcements ----

  /** The rejected token that tells the shell the session expired. */
  predicate Announces(session: SessionState, event: Event) { event.Failed? && Bumps(session, event) }

  predicate Silent(session: SessionState) { session.expired || session.userId.None? }

  lemma SilenceIsKept(session: SessionState, event: Event)
    requires Silent(session)
    ensures !Announces(session, event)
    ensures !event.SignedInAs? ==> Silent(Next(session, event))
  {
  }

  /** After an announcement, and until a sign-in, the session is expired or signed out. */
  lemma {:induction false} SilentAfterAnnouncement(session: SessionState, events: seq<Event>, i: nat, n: nat)
    requires i < n <= |events| && Announces(After(session, events, i), events[i])
    requires forall m | i < m < n :: !events[m].SignedInAs?
    ensures Silent(After(session, events, n))
    decreases n
  {
    if n > i + 1 {
      SilentAfterAnnouncement(session, events, i, n - 1);
      SilenceIsKept(After(session, events, n - 1), events[n - 1]);
    }
  }

  /** The shell is told once per expiry: between two announcements of one process run there is a
      successful sign-in. */
  lemma AnnouncedOncePerSignIn(session: SessionState, events: seq<Event>, i: nat, j: nat) returns (m: nat)
    requires i < j < |events|
    requires Announces(After(session, events, i), events[i]) && Announces(After(session, events, j), events[j])
    ensures i < m < j && events[m].SignedInAs?
  {
    if forall m | i < m < j :: !events[m].SignedInAs? {
      SilentAfterAnnouncement(session, events, i, j);
      SilenceIsKept(After(session, events, j), events[j]);
      assert false;
    }
    m :| i < m < j && events[m].SignedInAs?;
  }
}
