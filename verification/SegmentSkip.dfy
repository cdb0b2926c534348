/** Skipping intros, credits and the like (`src/playback/segments.rs`). Instants and durations are
    counted in nanoseconds. */
module SegmentSkip {
  import opened Basics

  const SECOND := 1_000_000_000
  const AUTO_SKIP_DELAY := 3 * SECOND
  const COUNTDOWN_INTERVAL := SECOND
  const PROMPT_DEBOUNCE := 3 * SECOND

  datatype SegmentType = Intro | Outro | Recap | Commercial
  datatype SkipMode = Hidden | Disabled | Prompting | Always
  datatype SkipConfig = SkipConfig(intro: SkipMode, credits: SkipMode, recap: SkipMode, commercial: SkipMode)
  datatype SkipSegment = SkipSegment(segmentType: SegmentType, startTicks: int, endTicks: int, triggered: bool)

  datatype Action = Prompt(index: nat) | Countdown(index: nat, remainingSeconds: nat) | Skip(index: nat)
  datatype Pending = Pending(index: nat, dueAt: int, nextCountdownAt: int)
  datatype State = State(current: Option<nat>, pending: Option<Pending>, lastPromptAt: Option<int>)

  const INITIAL := State(None, None, None)

  function ModeFor(config: SkipConfig, segmentType: SegmentType): SkipMode {
    match segmentType
    case Intro => config.intro
    case Outro => config.credits
    case Recap => config.recap
    case Commercial => config.commercial
  }

  predicate IsActive(segment: SkipSegment, config: SkipConfig, ticks: int) {
    && !segment.triggered
    && ModeFor(config, segment.segmentType) != Hidden
    && segment.startTicks <= ticks < segment.endTicks
  }

  /** The first active segment. */
  function ActiveSegmentAt(segments: seq<SkipSegment>, config: SkipConfig, ticks: int): (r: Option<nat>)
    ensures r.Some? ==> r.value < |segments| && IsActive(segments[r.value], config, ticks)
    ensures r.Some? ==> forall i | 0 <= i < r.value :: !IsActive(segments[i], config, ticks)
    ensures r.None? ==> forall i | 0 <= i < |segments| :: !IsActive(segments[i], config, ticks)
  {
    Position(segments, (segment: SkipSegment) => IsActive(segment, config, ticks))
  }

  /** Segment `index` may still be skipped automatically. */
  predicate MaySkip(segments: seq<SkipSegment>, config: SkipConfig, ticks: int, index: nat) {
    && index < |segments|
    && !segments[index].triggered
    && ModeFor(config, segments[index].segmentType) == Always
    && segments[index].startTicks <= ticks < segments[index].endTicks
  }

  function SaturatingSince(now: int, earlier: int): int { if now < earlier then 0 else now - earlier }

  /** Whole seconds left, rounded up from whole milliseconds, never below one. */
  function RemainingSeconds(left: int): nat
    requires left >= 0
  {
    var seconds := (left / 1_000_000 + 999) / 1000;
    if seconds < 1 then 1 else seconds
  }

  // ---- One call, as a function of the state ----

  function AutoSkipStarted(state: State, segments: seq<SkipSegment>, index: nat, now: int): (State, Option<Action>) {
    if (state.pending.Some? && state.pending.value.index == index)
       || index >= |segments| || segments[index].triggered
    then (state, None)
    else (state.(pending := Some(Pending(index, now + AUTO_SKIP_DELAY, now + COUNTDOWN_INTERVAL))),
          Some(Countdown(index, AUTO_SKIP_DELAY / SECOND)))
  }

  function Updated(state: State, segments: seq<SkipSegment>, config: SkipConfig, ticks: int, now: int):
    (State, Option<Action>)
  {
    match ActiveSegmentAt(segments, config, ticks)
    case None => (state.(current := None, pending := None), None)
    case Some(index) =>
      var entered := state.current != Some(index);
      var state := state.(current := Some(index));
      match ModeFor(config, segments[index].segmentType)
      case Hidden | Disabled => (state.(pending := None), None)
      case Prompting =>
        (state.(pending := None),
         if entered || state.lastPromptAt.None? || SaturatingSince(now, state.lastPromptAt.value) >= PROMPT_DEBOUNCE
         then Some(Prompt(index)) else None)
      case Always => AutoSkipStarted(state, segments, index, now)
  }

  function Ticked(state: State, segments: seq<SkipSegment>, config: SkipConfig, ticks: int, now: int):
    (State, Option<Action>)
  {
    if state.pending.None? then (state, None)
    else
      var pending := state.pending.value;
      if !MaySkip(segments, config, ticks, pending.index) then (state.(pending := None), None)
      else if now >= pending.dueAt then (state.(pending := None), Some(Skip(pending.index)))
      else if now < pending.nextCountdownAt then (state, None)
      else (state.(pending := Some(pending.(nextCountdownAt := now + COUNTDOWN_INTERVAL))),
            Some(Countdown(pending.index, RemainingSeconds(pending.dueAt - now))))
  }

  /** The state as the source keeps it: one object whose fields the calls update. */
  class SegmentSkipState {
    var current: Option<nat>
    var pending: Option<Pending>
    var lastPromptAt: Option<int>

    function View(): State
      reads this
    {
      State(current, pending, lastPromptAt)
    }

    constructor ()
      ensures View() == INITIAL
    {
      current, pending, lastPromptAt := None, None, None;
    }

    method Clear()
      modifies this
      ensures View() == INITIAL
    {
      current, pending, lastPromptAt := None, None, None;
    }

    method CancelPending()
      modifies this
      ensures View() == old(View()).(pending := None)
    {
      pending := None;
    }

    method Update(segments: seq<SkipSegment>, config: SkipConfig, ticks: int, now: int)
      returns (action: Option<Action>)
      modifies this
      ensures (View(), action) == Updated(old(View()), segments, config, ticks, now)
    {
      var active := ActiveSegmentAt(segments, config, ticks);
      if active.None? {
        current, pending := None, None;
        return None;
      }
      var index := active.value;
      var entered := current != Some(index);
      current := Some(index);
      var mode := ModeFor(config, segments[index].segmentType);
      if mode == Always {
        action := StartAutoSkip(segments, index, now);
      } else {
        pending := None;
        action := None;
        if mode == Prompting
           && (entered || lastPromptAt.None? || SaturatingSince(now, lastPromptAt.value) >= PROMPT_DEBOUNCE) {
          action := Some(Prompt(index));
        }
      }
    }

    method Tick(segments: seq<SkipSegment>, config: SkipConfig, ticks: int, now: int)
      returns (action: Option<Action>)
      modifies this
      ensures (View(), action) == Ticked(old(View()), segments, config, ticks, now)
    {
      if pending.None? {
        return None;
      }
      var waiting := pending.value;
      if !MaySkip(segments, config, ticks, waiting.index) {
        pending := None;
        return None;
      }
      if now >= waiting.dueAt {
        pending := None;
        return Some(Skip(waiting.index));
      }
      if now < waiting.nextCountdownAt {
        return None;
      }
      pending := Some(waiting.(nextCountdownAt := now + COUNTDOWN_INTERVAL));
      action := Some(Countdown(waiting.index, RemainingSeconds(waiting.dueAt - now)));
    }

    method MarkPromptShown(now: int)
      modifies this
      ensures View() == old(View()).(lastPromptAt := Some(now))
    {
      lastPromptAt := Some(now);
    }

    method FinishSkip(now: int)
      modifies this
      ensures View() == State(None, None, Some(now))
    {
      current, pending := None, None;
      lastPromptAt := Some(now);
    }

    method StartAutoSkip(segments: seq<SkipSegment>, index: nat, now: int) returns (action: Option<Action>)
      modifies this`pending
      ensures (View(), action) == AutoSkipStarted(old(View()), segments, index, now)
    {
      if (pending.Some? && pending.value.index == index) || index >= |segments| || segments[index].triggered {
        return None;
      }
      pending := Some(Pending(index, now + AUTO_SKIP_DELAY, now + COUNTDOWN_INTERVAL));
      action := Some(Countdown(index, AUTO_SKIP_DELAY / SECOND));
    }
  }
}
