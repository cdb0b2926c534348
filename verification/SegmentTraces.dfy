/** What any run of calls on the segment skip state guarantees. Segments, configuration and
    position may differ from call to call. */
module SegmentTraces {
  import opened Basics
  import opened SegmentSkip

  datatype Call =
    | UpdateCall(segments: seq<SkipSegment>, config: SkipConfig, ticks: int, now: int)
    | TickCall(segments: seq<SkipSegment>, config: SkipConfig, ticks: int, now: int)
    | ClearCall
    | CancelCall
    | PromptShownCall(shownAt: int)
    | FinishCall(finishedAt: int)

  function Applied(state: State, call: Call): (State, Option<Action>) {
    match call
    case UpdateCall(segments, config, ticks, now) => Updated(state, segments, config, ticks, now)
    case TickCall(segments, config, ticks, now) => Ticked(state, segments, config, ticks, now)
    case ClearCall => (INITIAL, None)
    case CancelCall => (state.(pending := None), None)
    case PromptShownCall(now) => (state.(lastPromptAt := Some(now)), None)
    case FinishCall(now) => (State(None, None, Some(now)), None)
  }

  /** The state before call `n` of a run, and what call `n` answers. */
  function StateAt(calls: seq<Call>, n: nat): State
    requires n <= |calls|
  {
    if n == 0 then INITIAL else Applied(StateAt(calls, n - 1), calls[n - 1]).0
  }

  function AnswerAt(calls: seq<Call>, n: nat): Option<Action>
    requires n < |calls|
  {
    Applied(StateAt(calls, n), calls[n]).1
  }

  // ---- Modes and positions, field by field ----

  predicate HasMode(config: SkipConfig, segmentType: SegmentType, mode: SkipMode) {
    || (segmentType == Intro && config.intro == mode) || (segmentType == Outro && config.credits == mode)
    || (segmentType == Recap && config.recap == mode) || (segmentType == Commercial && config.commercial == mode)
  }

  /** The position is inside segment `i`, which was not skipped yet. */
  predicate IsInside(segments: seq<SkipSegment>, ticks: int, i: nat) {
    i < |segments| && !segments[i].triggered && segments[i].startTicks <= ticks && ticks < segments[i].endTicks
  }

  predicate IsVisible(segments: seq<SkipSegment>, config: SkipConfig, ticks: int, i: nat) {
    IsInside(segments, ticks, i) && !HasMode(config, segments[i].segmentType, Hidden)
  }

  predicate IsFirstVisible(segments: seq<SkipSegment>, config: SkipConfig, ticks: int, i: nat) {
    IsVisible(segments, config, ticks, i) && forall j: nat | j < i :: !IsVisible(segments, config, ticks, j)
  }

  lemma ActiveIsFirstVisible(segments: seq<SkipSegment>, config: SkipConfig, ticks: int, i: nat)
    ensures ActiveSegmentAt(segments, config, ticks) == Some(i) <==> IsFirstVisible(segments, config, ticks, i)
    ensures MaySkip(segments, config, ticks, i)
      <==> IsInside(segments, ticks, i) && HasMode(config, segments[i].segmentType, Always)
  {
    forall j: nat | j < |segments|
      ensures IsActive(segments[j], config, ticks) <==> IsVisible(segments, config, ticks, j)
    {
    }
  }

  /** The seconds shown are the whole milliseconds left, rounded up to seconds, and at least one. */
  lemma RemainingSecondsRoundUp(left: int)
    requires left >= 0
    ensures var s := RemainingSeconds(left);
            s >= 1 && left / 1_000_000 <= s * 1000 && (s > 1 ==> (s - 1) * 1000 < left / 1_000_000)
  {
  }

  // ---- Automatic skips ----

  /** A call that leaves an automatic skip of segment `index`, due at `dueAt`, waiting: updates
      that still find the segment first and in `Always` mode, ticks that still find it valid
      before the deadline, and prompts. */
  predicate KeepsWaiting(call: Call, index: nat, dueAt: int) {
    match call
    case UpdateCall(segments, config, ticks, _) =>
      ActiveSegmentAt(segments, config, ticks) == Some(index) && MaySkip(segments, config, ticks, index)
    case TickCall(segments, config, ticks, now) => MaySkip(segments, config, ticks, index) && now < dueAt
    case PromptShownCall(_) => true
    case ClearCall | CancelCall | FinishCall(_) => false
  }

  /** Call `k` announced the countdown for `index`, and every call from then up to `n` kept it. */
  predicate ArmedBy(calls: seq<Call>, k: nat, n: nat, index: nat)
    requires k < n <= |calls|
  {
    && calls[k].UpdateCall?
    && AnswerAt(calls, k) == Some(Countdown(index, 3))
    && forall m | k < m < n :: KeepsWaiting(calls[m], index, calls[k].now + AUTO_SKIP_DELAY)
  }

  lemma ArmingSetsPending(calls: seq<Call>, k: nat, index: nat)
    requires k < |calls| && calls[k].UpdateCall?
    ensures AnswerAt(calls, k) == Some(Countdown(index, 3))
      ==> StateAt(calls, k + 1).pending
            == Some(Pending(index, calls[k].now + AUTO_SKIP_DELAY, calls[k].now + COUNTDOWN_INTERVAL))
  {
  }

  /** An armed skip is pending, with the deadline its announcement fixed. */
  lemma {:induction false} ArmedIsPending(calls: seq<Call>, k: nat, n: nat, index: nat)
    requires k < n <= |calls| && ArmedBy(calls, k, n, index)
    ensures var pending := StateAt(calls, n).pending;
            pending.Some? && pending.value.index == index && pending.value.dueAt == calls[k].now + AUTO_SKIP_DELAY
    decreases n
  {
    if n == k + 1 {
      ArmingSetsPending(calls, k, index);
    } else {
      ArmedIsPending(calls, k, n - 1, index);
      assert KeepsWaiting(calls[n - 1], index, calls[k].now + AUTO_SKIP_DELAY);
    }
  }

  /** Whatever is pending after a call was armed by it, or was pending before and kept. */
  lemma PendingAfterCall(state: State, call: Call)
    requires Applied(state, call).0.pending.Some?
    ensures var pending := Applied(state, call).0.pending.value;
            if call.UpdateCall? && (state.pending.None? || state.pending.value.index != pending.index) then
              && pending.dueAt == call.now + AUTO_SKIP_DELAY
              && Applied(state, call).1 == Some(Countdown(pending.index, 3))
            else
              && state.pending.Some? && state.pending.value.index == pending.index
              && state.pending.value.dueAt == pending.dueAt
              && KeepsWaiting(call, pending.index, pending.dueAt)
  {
  }

  /** Conversely, whatever is pending was armed by one announcement and kept ever since. */
  lemma {:induction false} PendingWasArmed(calls: seq<Call>, n: nat) returns (k: nat)
    requires n <= |calls| && StateAt(calls, n).pending.Some?
    ensures k < n && ArmedBy(calls, k, n, StateAt(calls, n).pending.value.index)
  {
    var pending := StateAt(calls, n).pending.value;
    var before := StateAt(calls, n - 1).pending;
    PendingAfterCall(StateAt(calls, n - 1), calls[n - 1]);
    if calls[n - 1].UpdateCall? && (before.None? || before.value.index != pending.index) {
      k := n - 1;
    } else {
      k := PendingWasArmed(calls, n - 1);
      ArmedIsPending(calls, k, n - 1, before.value.index);
    }
  }

  /** A call skips segment `index` exactly when it is a tick that still finds the segment valid,
      and some update at least three seconds earlier announced the countdown that every call
      since has kept. */
  lemma SkipExactly(calls: seq<Call>, n: nat, index: nat)
    requires n < |calls|
    ensures AnswerAt(calls, n) == Some(Skip(index))
      <==> && calls[n].TickCall?
           && IsInside(calls[n].segments, calls[n].ticks, index)
           && HasMode(calls[n].config, calls[n].segments[index].segmentType, Always)
           && exists k :: 0 <= k < n && ArmedBy(calls, k, n, index) && calls[n].now >= calls[k].now + 3_000_000_000
  {
    if calls[n].TickCall? {
      ActiveIsFirstVisible(calls[n].segments, calls[n].config, calls[n].ticks, index);
    }
    if AnswerAt(calls, n) == Some(Skip(index)) {
      var k := PendingWasArmed(calls, n);
      ArmedIsPending(calls, k, n, index);
    }
    if k :| 0 <= k < n && ArmedBy(calls, k, n, index) && calls[n].TickCall?
            && calls[n].now >= calls[k].now + AUTO_SKIP_DELAY {
      ArmedIsPending(calls, k, n, index);
    }
  }

  /** A skip is answered once: the tick that answers it leaves nothing pending. */
  lemma SkipDisarms(calls: seq<Call>, n: nat, index: nat)
    requires n < |calls| && AnswerAt(calls, n) == Some(Skip(index))
    ensures StateAt(calls, n + 1).pending.None?
  {
  }

  // ---- Announcements and prompts ----

  /** An update announces a countdown from three exactly when the first visible segment is to be
      skipped automatically and no announcement of it is being kept. */
  lemma AnnouncedExactly(calls: seq<Call>, n: nat, index: nat)
    requires n < |calls| && calls[n].UpdateCall?
    ensures AnswerAt(calls, n) == Some(Countdown(index, 3))
      <==> && IsFirstVisible(calls[n].segments, calls[n].config, calls[n].ticks, index)
           && HasMode(calls[n].config, calls[n].segments[index].segmentType, Always)
           && !exists k :: 0 <= k < n && ArmedBy(calls, k, n, index)
  {
    var state := StateAt(calls, n);
    ActiveIsFirstVisible(calls[n].segments, calls[n].config, calls[n].ticks, index);
    if state.pending.Some? && state.pending.value.index == index {
      var k := PendingWasArmed(calls, n);
      assert 0 <= k < n && ArmedBy(calls, k, n, index);
    }
    if k :| 0 <= k < n && ArmedBy(calls, k, n, index) {
      ArmedIsPending(calls, k, n, index);
    }
  }

  /** The latest update that no clear and no finished skip followed found segment `index` first. */
  predicate Saw(calls: seq<Call>, n: nat, index: nat)
    requires n <= |calls|
  {
    exists k | 0 <= k < n ::
      && calls[k].UpdateCall? && IsFirstVisible(calls[k].segments, calls[k].config, calls[k].ticks, index)
      && forall m | k < m < n :: calls[m].TickCall? || calls[m].CancelCall? || calls[m].PromptShownCall?
  }

  lemma {:induction false} CurrentWasSeen(calls: seq<Call>, n: nat, index: nat)
    requires n <= |calls|
    ensures StateAt(calls, n).current == Some(index) <==> Saw(calls, n, index)
  {
    if n > 0 {
      CurrentWasSeen(calls, n - 1, index);
      var call := calls[n - 1];
      if call.UpdateCall? {
        ActiveIsFirstVisible(call.segments, call.config, call.ticks, index);
      }
      assert Saw(calls, n, index) <==>
        if call.UpdateCall? then IsFirstVisible(call.segments, call.config, call.ticks, index)
        else (call.TickCall? || call.CancelCall? || call.PromptShownCall?) && Saw(calls, n - 1, index);
    }
  }

  /** Call `k` recorded a prompt that was shown or a skip that was finished, at this time. */
  predicate Records(call: Call, time: int) { call == PromptShownCall(time) || call == FinishCall(time) }

  /** The latest such record, unless a clear followed it. */
  predicate LastRecorded(calls: seq<Call>, n: nat, time: int)
    requires n <= |calls|
  {
    exists k | 0 <= k < n ::
      Records(calls[k], time)
      && forall m | k < m < n :: calls[m].UpdateCall? || calls[m].TickCall? || calls[m].CancelCall?
  }

  lemma {:induction false} LastPromptWasRecorded(calls: seq<Call>, n: nat, time: int)
    requires n <= |calls|
    ensures StateAt(calls, n).lastPromptAt == Some(time) <==> LastRecorded(calls, n, time)
  {
    if n > 0 {
      LastPromptWasRecorded(calls, n - 1, time);
      var call := calls[n - 1];
      assert LastRecorded(calls, n, time) <==>
        Records(call, time)
        || ((call.UpdateCall? || call.TickCall? || call.CancelCall?) && LastRecorded(calls, n - 1, time));
    }
  }

  /** A call prompts for a segment exactly when it is an update that finds it first, its type's mode
      asks for prompts, and it was not the one seen last or no prompt and no finished skip was
      recorded less than three seconds before. */
  lemma PromptExactly(calls: seq<Call>, n: nat, index: nat)
    requires n < |calls|
    ensures AnswerAt(calls, n) == Some(Prompt(index))
      <==> && calls[n].UpdateCall?
           && IsFirstVisible(calls[n].segments, calls[n].config, calls[n].ticks, index)
           && HasMode(calls[n].config, calls[n].segments[index].segmentType, Prompting)
           && (!Saw(calls, n, index)
               || !exists time :: LastRecorded(calls, n, time) && calls[n].now < time + 3_000_000_000)
  {
    if calls[n].UpdateCall? {
      ActiveIsFirstVisible(calls[n].segments, calls[n].config, calls[n].ticks, index);
      CurrentWasSeen(calls, n, index);
      var last := StateAt(calls, n).lastPromptAt;
      forall time
        ensures last == Some(time) <==> LastRecorded(calls, n, time)
      {
        LastPromptWasRecorded(calls, n, time);
      }
    }
  }

  // ---- The countdown between announcement and skip ----

  predicate CountsDown(calls: seq<Call>, m: nat)
    requires m < |calls|
  {
    calls[m].TickCall? && AnswerAt(calls, m).Some? && AnswerAt(calls, m).value.Countdown?
  }

  /** The numbers shown by the ticks after call `k` and before call `n`. */
  function Shown(calls: seq<Call>, k: nat, n: nat): seq<nat>
    requires k < n <= |calls|
    decreases n
  {
    if n == k + 1 then []
    else if CountsDown(calls, n - 1) then
      Shown(calls, k, n - 1) + [AnswerAt(calls, n - 1).value.remainingSeconds]
    else Shown(calls, k, n - 1)
  }

  /** One kept call: a tick past the next countdown time shows the seconds left and moves that
      time on; any other call leaves the pending skip as it was. */
  lemma WaitingStep(state: State, call: Call, pending: Pending)
    requires state.pending == Some(pending) && KeepsWaiting(call, pending.index, pending.dueAt)
    ensures var (next, answer) := Applied(state, call);
            if call.TickCall? && answer.Some? && answer.value.Countdown? then
              && pending.nextCountdownAt <= call.now < pending.dueAt
              && next.pending == Some(pending.(nextCountdownAt := call.now + COUNTDOWN_INTERVAL))
              && answer.value.remainingSeconds == RemainingSeconds(pending.dueAt - call.now)
            else next.pending == Some(pending)
  {
  }

  /** What holds while the skip armed at `start` waits: `shown` are the numbers so far and `last`
      the time of the latest of them, or of the announcement. */
  predicate CountdownInvariant(start: int, last: int, shown: seq<nat>) {
    && |shown| <= 2
    && (forall i | 0 <= i < |shown| :: 1 <= shown[i] <= 2)
    && (|shown| == 2 ==> shown[1] <= shown[0])
    && start + |shown| * SECOND <= last < start + AUTO_SKIP_DELAY
    && (shown != [] ==> shown[|shown| - 1] == RemainingSeconds(start + AUTO_SKIP_DELAY - last))
  }

  lemma CountdownStep(start: int, last: int, shown: seq<nat>, now: int)
    requires CountdownInvariant(start, last, shown)
    requires last + COUNTDOWN_INTERVAL <= now < start + AUTO_SKIP_DELAY
    ensures CountdownInvariant(start, now, shown + [RemainingSeconds(start + AUTO_SKIP_DELAY - now)])
  {
    RemainingFalls(start + AUTO_SKIP_DELAY - last, start + AUTO_SKIP_DELAY - now);
  }

  /** Each announcement is followed by at most two more countdown numbers, each one or two, never
      rising, however the calls fall in time. */
  lemma {:induction false} CountdownIsShort(calls: seq<Call>, k: nat, n: nat, index: nat) returns (last: int)
    requires k < n <= |calls| && ArmedBy(calls, k, n, index)
    ensures CountdownInvariant(calls[k].now, last, Shown(calls, k, n))
    ensures StateAt(calls, n).pending
      == Some(Pending(index, calls[k].now + AUTO_SKIP_DELAY, last + COUNTDOWN_INTERVAL))
    decreases n
  {
    var start := calls[k].now;
    if n == k + 1 {
      last := start;
      ArmingSetsPending(calls, k, index);
    } else {
      last := CountdownIsShort(calls, k, n - 1, index);
      assert KeepsWaiting(calls[n - 1], index, start + AUTO_SKIP_DELAY);
      WaitingStep(StateAt(calls, n - 1), calls[n - 1], StateAt(calls, n - 1).pending.value);
      if CountsDown(calls, n - 1) {
        CountdownStep(start, last, Shown(calls, k, n - 1), calls[n - 1].now);
        last := calls[n - 1].now;
      }
    }
  }

  /** When the latest number was shown: with the announcement, or by a tick since. */
  function LastShown(calls: seq<Call>, k: nat, n: nat): int
    requires k < n <= |calls| && calls[k].UpdateCall?
    decreases n
  {
    if n == k + 1 then calls[k].now
    else if CountsDown(calls, n - 1) then calls[n - 1].now
    else LastShown(calls, k, n - 1)
  }

  lemma {:induction false} NextNumberIsDue(calls: seq<Call>, k: nat, n: nat, index: nat)
    requires k < n <= |calls| && ArmedBy(calls, k, n, index)
    ensures StateAt(calls, n).pending
      == Some(Pending(index, calls[k].now + AUTO_SKIP_DELAY, LastShown(calls, k, n) + 1_000_000_000))
    decreases n
  {
    if n == k + 1 {
      ArmingSetsPending(calls, k, index);
    } else {
      NextNumberIsDue(calls, k, n - 1, index);
      assert KeepsWaiting(calls[n - 1], index, calls[k].now + AUTO_SKIP_DELAY);
      WaitingStep(StateAt(calls, n - 1), calls[n - 1], StateAt(calls, n - 1).pending.value);
    }
  }

  /** A tick shows the next number exactly when the announced skip is still valid and not yet due, and
      a second has passed since the last number. */
  lemma TickCountsDownExactly(calls: seq<Call>, k: nat, n: nat, index: nat)
    requires k < n < |calls| && ArmedBy(calls, k, n, index) && calls[n].TickCall?
    ensures CountsDown(calls, n)
      <==> && IsInside(calls[n].segments, calls[n].ticks, index)
           && HasMode(calls[n].config, calls[n].segments[index].segmentType, Always)
           && LastShown(calls, k, n) + 1_000_000_000 <= calls[n].now < calls[k].now + 3_000_000_000
  {
    NextNumberIsDue(calls, k, n, index);
    ActiveIsFirstVisible(calls[n].segments, calls[n].config, calls[n].ticks, index);
  }

  lemma RemainingFalls(before: int, after: int)
    requires 0 < after <= before
    ensures RemainingSeconds(after) <= RemainingSeconds(before)
    ensures after <= 2 * SECOND ==> 1 <= RemainingSeconds(after) <= 2
  {
  }

  /** Countdown numbers come from nowhere else: a tick that shows one was armed. */
  lemma CountdownWasArmed(calls: seq<Call>, m: nat) returns (k: nat)
    requires m < |calls| && CountsDown(calls, m)
    ensures k < m && ArmedBy(calls, k, m + 1, AnswerAt(calls, m).value.index)
  {
    k := PendingWasArmed(calls, m);
    ArmedIsPending(calls, k, m, AnswerAt(calls, m).value.index);
  }
}
