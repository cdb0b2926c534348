/** The background worker that reports playback state (`src/jellyfin/playback_reporter.rs`).
    It drains a channel in batches, coalesces progress reports inside a batch, sends what is left
    in order and then acknowledges a flush. Messages are numbered by arrival so that equal reports
    stay distinguishable; the worker never looks at the number. */
module PlaystateReporter {
  import opened Basics

  /** The three report endpoints: "Sessions/Playing", ".../Progress" and ".../Stopped". */
  datatype Endpoint = Start | Progress | Stopped

  datatype PlaystateRequest = PlaystateRequest(
    endpoint: Endpoint, itemId: string, playSessionId: Option<string>, body: string)
  {
    predicate IsProgress() { endpoint == Progress }
    predicate IsStopped() { endpoint == Stopped }

    predicate SameSession(other: PlaystateRequest) {
      itemId == other.itemId && playSessionId == other.playSessionId
    }
  }

  datatype Message = Report(report: PlaystateRequest) | Flush(ack: nat)

  /** What the server and the flushing callers observe. */
  datatype Event = Sent(arrival: nat, report: PlaystateRequest) | Acked(arrival: nat, ack: nat)

  datatype Queued = Queued(arrival: nat, report: PlaystateRequest)

  function RetainOthers(pending: seq<Queued>, report: PlaystateRequest): seq<Queued> {
    if pending == [] then []
    else if pending[0].report.IsProgress() && pending[0].report.SameSession(report) then
      RetainOthers(pending[1..], report)
    else [pending[0]] + RetainOthers(pending[1..], report)
  }

  function Enqueued(pending: seq<Queued>, arrival: nat, report: PlaystateRequest): seq<Queued> {
    (if report.IsProgress() || report.IsStopped() then RetainOthers(pending, report) else pending)
    + [Queued(arrival, report)]
  }

  /** The worker's queue and the flush it has met, changed in place while a batch is collected. */
  class Worker {
    var pending: seq<Queued>
    var flush: Option<nat>

    constructor ()
      ensures pending == [] && flush == None
    {
      pending, flush := [], None;
    }

    method Collect(arrival: nat, message: Message)
      modifies this
      ensures message.Report? ==> pending == Enqueued(old(pending), arrival, message.report) && flush == old(flush)
      ensures message.Flush? ==> pending == old(pending) && flush == Some(message.ack)
    {
      match message
      case Report(report) => Enqueue(arrival, report);
      case Flush(ack) => flush := Some(ack);
    }

    method Enqueue(arrival: nat, report: PlaystateRequest)
      modifies this`pending
      ensures pending == Enqueued(old(pending), arrival, report)
    {
      if report.IsProgress() || report.IsStopped() {
        pending := RetainOthers(pending, report);
      }
      pending := pending + [Queued(arrival, report)];
    }

    /** Sends every queued report, first in first out. */
    method Drain() returns (sent: seq<Event>)
      modifies this`pending
      ensures pending == [] && sent == AsSent(old(pending))
    {
      sent := [];
      while pending != []
        invariant AsSent(old(pending)) == sent + AsSent(pending)
        decreases |pending|
      {
        var report := pending[0];
        pending := pending[1..];
        sent := sent + [Sent(report.arrival, report.report)];
      }
    }
  }

  function AsSent(pending: seq<Queued>): seq<Event> {
    if pending == [] then [] else [Sent(pending[0].arrival, pending[0].report)] + AsSent(pending[1..])
  }

  // ---- Which reports survive, said without a queue ----

  function EventAt(messages: seq<Message>, i: nat): Event
    requires i < |messages|
  {
    match messages[i]
    case Report(report) => Sent(i, report)
    case Flush(ack) => Acked(i, ack)
  }

  /** Message `j` makes the earlier progress report `i` pointless. */
  predicate Supersedes(messages: seq<Message>, j: nat, i: nat)
    requires i < j < |messages|
  {
    && messages[i].Report? && messages[i].report.IsProgress()
    && messages[j].Report? && (messages[j].report.IsProgress() || messages[j].report.IsStopped())
    && messages[i].report.SameSession(messages[j].report)
  }

  /** `ready[i]` says whether message `i` had arrived when the worker polled for it. A batch
      starts where the worker had to block, or after a flush. */
  predicate StartsBatch(messages: seq<Message>, ready: seq<bool>, i: nat)
    requires i < |messages| == |ready|
  {
    i == 0 || messages[i - 1].Flush? || !ready[i]
  }

  ghost predicate SameBatch(messages: seq<Message>, ready: seq<bool>, i: nat, j: nat)
    requires i <= j < |messages| == |ready|
  {
    forall k | i < k <= j :: !StartsBatch(messages, ready, k)
  }

  ghost predicate Superseded(messages: seq<Message>, ready: seq<bool>, i: nat)
    requires i < |messages| == |ready|
  {
    exists j | i < j < |messages| :: Supersedes(messages, j, i) && SameBatch(messages, ready, i, j)
  }

  /** The events for the first `n` messages: all of them, in order, but the superseded reports. */
  ghost function Expected(messages: seq<Message>, ready: seq<bool>, n: nat): seq<Event>
    requires n <= |messages| == |ready|
  {
    if n == 0 then []
    else if Superseded(messages, ready, n - 1) then Expected(messages, ready, n - 1)
    else Expected(messages, ready, n - 1) + [EventAt(messages, n - 1)]
  }

  // ---- The worker does exactly that, for every batching ----

  method RunPlaystateReporter(messages: seq<Message>, ready: seq<bool>) returns (log: seq<Event>)
    requires |ready| == |messages|
    ensures log == Expected(messages, ready, |messages|)
  {
    log := [];
    var worker := new Worker();
    var next := 0;
    while next < |messages|
      invariant next <= |messages|
      invariant worker.pending == []
      invariant next < |messages| ==> StartsBatch(messages, ready, next)
      invariant log == Expected(messages, ready, next)
      decreases |messages| - next
    {
      ghost var first := next;
      next := CollectBatch(worker, messages, ready, next);
      var sent := worker.Drain();
      log := log + sent;
      if worker.flush.Some? {
        log := log + [Acked(next - 1, worker.flush.value)];
      }
      BatchIsExpected(messages, ready, first, next);
    }
  }

  /** One blocking receive, then whatever is ready, up to the first flush. */
  method CollectBatch(worker: Worker, messages: seq<Message>, ready: seq<bool>, first: nat) returns (next: nat)
    requires first < |messages| == |ready| && worker.pending == []
    modifies worker
    ensures IsBatch(messages, ready, first, next)
    ensures worker.pending == Window(messages, first, next, next)
    ensures worker.flush == if messages[next - 1].Flush? then Some(messages[next - 1].ack) else None
  {
    worker.flush := None;
    CollectKeepsWindow(messages, first, first);
    worker.Collect(first, messages[first]);
    next := first + 1;
    while worker.flush.None? && next < |messages| && ready[next]
      invariant first < next <= |messages|
      invariant worker.flush == if messages[next - 1].Flush? then Some(messages[next - 1].ack) else None
      invariant forall k | first < k < next :: !StartsBatch(messages, ready, k)
      invariant worker.pending == Window(messages, first, next, next)
      decreases |messages| - next
    {
      CollectKeepsWindow(messages, first, next);
      worker.Collect(next, messages[next]);
      next := next + 1;
    }
  }

  /** Report `i` is superseded by some message before `end`. */
  ghost predicate SupersededBefore(messages: seq<Message>, i: nat, end: nat)
    requires i < end <= |messages|
  {
    exists j | i < j < end :: Supersedes(messages, j, i)
  }

  /** The reports among messages `first..m` that nothing before `end` supersedes. */
  ghost function Window(messages: seq<Message>, first: nat, m: nat, end: nat): seq<Queued>
    requires first <= m <= end <= |messages|
    decreases m
  {
    if m == first then []
    else if messages[m - 1].Flush? || SupersededBefore(messages, m - 1, end) then
      Window(messages, first, m - 1, end)
    else Window(messages, first, m - 1, end) + [Queued(m - 1, messages[m - 1].report)]
  }

  lemma {:induction false} RetainAppend(a: seq<Queued>, b: seq<Queued>, report: PlaystateRequest)
    ensures RetainOthers(a + b, report) == RetainOthers(a, report) + RetainOthers(b, report)
  {
    if a == [] {
      assert a + b == b;
    } else {
      assert (a + b)[1..] == a[1..] + b;
      RetainAppend(a[1..], b, report);
    }
  }

  predicate Clears(message: Message) {
    message.Report? && (message.report.IsProgress() || message.report.IsStopped())
  }

  /** Looking one message further drops from the window just what `retain` drops. */
  lemma {:induction false} WindowStep(messages: seq<Message>, first: nat, m: nat, end: nat)
    requires first <= m <= end < |messages|
    ensures Window(messages, first, m, end + 1)
      == if Clears(messages[end]) then RetainOthers(Window(messages, first, m, end), messages[end].report)
         else Window(messages, first, m, end)
    decreases m
  {
    if m > first {
      WindowStep(messages, first, m - 1, end);
      assert SupersededBefore(messages, m - 1, end + 1)
        <==> SupersededBefore(messages, m - 1, end) || Supersedes(messages, end, m - 1);
      if Clears(messages[end]) && !messages[m - 1].Flush? && !SupersededBefore(messages, m - 1, end) {
        var latest, last := messages[end].report, [Queued(m - 1, messages[m - 1].report)];
        RetainAppend(Window(messages, first, m - 1, end), last, latest);
        assert last[1..] == [];
      }
    }
  }

  lemma CollectKeepsWindow(messages: seq<Message>, first: nat, next: nat)
    requires first <= next < |messages|
    ensures Window(messages, first, next + 1, next + 1)
      == match messages[next]
         case Report(report) => Enqueued(Window(messages, first, next, next), next, report)
         case Flush(_) => Window(messages, first, next, next)
  {
    WindowStep(messages, first, next, next);
  }

  lemma {:induction false} AsSentAppend(a: seq<Queued>, b: seq<Queued>)
    ensures AsSent(a + b) == AsSent(a) + AsSent(b)
  {
    if a == [] {
      assert a + b == b;
    } else {
      assert (a + b)[1..] == a[1..] + b;
      AsSentAppend(a[1..], b);
    }
  }

  predicate IsBatch(messages: seq<Message>, ready: seq<bool>, first: nat, next: nat)
    requires |ready| == |messages|
  {
    && first < next <= |messages|
    && (next < |messages| ==> StartsBatch(messages, ready, next))
    && forall k | first < k < next :: !StartsBatch(messages, ready, k)
  }

  lemma SupersededInBatch(messages: seq<Message>, ready: seq<bool>, first: nat, next: nat, i: nat)
    requires |ready| == |messages| && IsBatch(messages, ready, first, next) && first <= i < next
    ensures Superseded(messages, ready, i) <==> SupersededBefore(messages, i, next)
  {
    if Superseded(messages, ready, i) {
      var j :| i < j < |messages| && Supersedes(messages, j, i) && SameBatch(messages, ready, i, j);
      assert j < next;
    }
    if SupersededBefore(messages, i, next) {
      var j :| i < j < next && Supersedes(messages, j, i);
      assert SameBatch(messages, ready, i, j);
    }
  }

  /** What one more report of the batch adds to what is sent. */
  lemma WindowGrows(messages: seq<Message>, first: nat, m: nat, next: nat)
    requires first < m <= next <= |messages| && forall k | first <= k < m :: messages[k].Report?
    ensures AsSent(Window(messages, first, m, next))
      == AsSent(Window(messages, first, m - 1, next))
         + if SupersededBefore(messages, m - 1, next) then [] else [EventAt(messages, m - 1)]
  {
    var last := [Queued(m - 1, messages[m - 1].report)];
    AsSentAppend(Window(messages, first, m - 1, next), last);
    assert last[1..] == [];
  }

  lemma {:induction false} BatchPrefix(messages: seq<Message>, ready: seq<bool>, first: nat, m: nat, next: nat)
    requires |ready| == |messages| && IsBatch(messages, ready, first, next) && first <= m <= next
    requires forall k | first <= k < m :: messages[k].Report?
    ensures Expected(messages, ready, m)
      == Expected(messages, ready, first) + AsSent(Window(messages, first, m, next))
    decreases m
  {
    if m > first {
      BatchPrefix(messages, ready, first, m - 1, next);
      SupersededInBatch(messages, ready, first, next, m - 1);
      WindowGrows(messages, first, m, next);
    }
  }

  lemma BatchIsExpected(messages: seq<Message>, ready: seq<bool>, first: nat, next: nat)
    requires |ready| == |messages| && IsBatch(messages, ready, first, next)
    ensures Expected(messages, ready, next)
      == Expected(messages, ready, first) + AsSent(Window(messages, first, next, next))
         + if messages[next - 1].Flush? then [Acked(next - 1, messages[next - 1].ack)] else []
  {
    forall k | first <= k < next - 1 ensures messages[k].Report? {
      assert !StartsBatch(messages, ready, k + 1);
    }
    if messages[next - 1].Flush? {
      BatchPrefix(messages, ready, first, next - 1, next);
      assert !Superseded(messages, ready, next - 1);
    } else {
      BatchPrefix(messages, ready, first, next, next);
    }
  }

  // ---- Coalescing keeps meaning ----

  /** The log is a subsequence of the messages: arrivals only rise and every event is its
      message, so nothing is invented, repeated or reordered. */
  lemma {:induction false} LogIsSubsequence(messages: seq<Message>, ready: seq<bool>, n: nat)
    requires n <= |messages| == |ready|
    ensures var log := Expected(messages, ready, n);
            && (forall p | 0 <= p < |log| ::
                  log[p].arrival < n && log[p] == EventAt(messages, log[p].arrival)
                  && !Superseded(messages, ready, log[p].arrival))
            && (forall p, q | 0 <= p < q < |log| :: log[p].arrival < log[q].arrival)
            && (forall i | 0 <= i < n && !Superseded(messages, ready, i) :: EventAt(messages, i) in log)
  {
    if n > 0 {
      LogIsSubsequence(messages, ready, n - 1);
    }
  }

  /** The events that must never be coalesced: starts, stops and flushes. */
  function Essential(events: seq<Event>): seq<Event> {
    if events == [] then []
    else
      var init, last := events[..|events| - 1], events[|events| - 1];
      if IsProgressEvent(last) then Essential(init) else Essential(init) + [last]
  }

  predicate IsProgressEvent(event: Event) { event.Sent? && event.report.endpoint == Progress }

  function AllEvents(messages: seq<Message>, n: nat): seq<Event>
    requires n <= |messages|
  {
    if n == 0 then [] else AllEvents(messages, n - 1) + [EventAt(messages, n - 1)]
  }

  lemma EssentialLast(events: seq<Event>, last: Event)
    ensures Essential(events + [last])
      == if IsProgressEvent(last) then Essential(events) else Essential(events) + [last]
  {
    assert (events + [last])[..|events|] == events;
  }

  /** No start or stop report is lost or reordered, and each flush is acknowledged exactly once,
      in its place among them. */
  lemma {:induction false} EssentialsAreKept(messages: seq<Message>, ready: seq<bool>, n: nat)
    requires n <= |messages| == |ready|
    ensures Essential(Expected(messages, ready, n)) == Essential(AllEvents(messages, n))
  {
    if n > 0 {
      EssentialsAreKept(messages, ready, n - 1);
      var events := Expected(messages, ready, n - 1);
      EssentialLast(events, EventAt(messages, n - 1));
      assert Superseded(messages, ready, n - 1) ==> messages[n - 1].Report? && messages[n - 1].report.IsProgress();
      EssentialLast(AllEvents(messages, n - 1), EventAt(messages, n - 1));
    }
  }

  /** A message is observed unless it is a progress report and, in its own batch, a progress or stop
      report of the same item and the same play session follows. */
  lemma ObservedExactly(messages: seq<Message>, ready: seq<bool>, i: nat)
    requires i < |messages| == |ready|
    ensures EventAt(messages, i) in Expected(messages, ready, |messages|)
      <==> !(&& messages[i].Report? && messages[i].report.endpoint == Progress
             && exists j | i < j < |messages| :: SameBatch(messages, ready, i, j) && MakesPointless(messages, j, i))
  {
    LogIsSubsequence(messages, ready, |messages|);
    if Superseded(messages, ready, i) {
      var j :| i < j < |messages| && Supersedes(messages, j, i) && SameBatch(messages, ready, i, j);
      assert MakesPointless(messages, j, i);
    }
    if j :| i < j < |messages| && SameBatch(messages, ready, i, j) && MakesPointless(messages, j, i)
            && messages[i].Report? && messages[i].report.endpoint == Progress {
      assert Supersedes(messages, j, i);
    }
  }

  /** A progress or stop report with the item and the play session of report `i`. */
  predicate MakesPointless(messages: seq<Message>, j: nat, i: nat)
    requires i < |messages| && j < |messages|
  {
    && messages[i].Report? && messages[j].Report? && messages[j].report.endpoint in {Progress, Stopped}
    && messages[j].report.itemId == messages[i].report.itemId
    && messages[j].report.playSessionId == messages[i].report.playSessionId
  }

  /** Every dropped progress report is followed, in its own batch, by a report of the same item and
      play session that was sent: the one that made it pointless, or a later one that made that one
      pointless. */
  lemma {:induction false} DroppedProgressHasSuccessor(messages: seq<Message>, ready: seq<bool>, i: nat)
    returns (j: nat)
    requires i < |messages| == |ready| && Superseded(messages, ready, i)
    ensures i < j < |messages| && Supersedes(messages, j, i) && SameBatch(messages, ready, i, j)
    ensures MakesPointless(messages, j, i) && !Superseded(messages, ready, j)
    decreases |messages| - i
  {
    j :| i < j < |messages| && Supersedes(messages, j, i) && SameBatch(messages, ready, i, j);
    if Superseded(messages, ready, j) {
      j := DroppedProgressHasSuccessor(messages, ready, j);
    }
  }

  predicate Concerns(report: PlaystateRequest, itemId: string, playSessionId: Option<string>) {
    report.itemId == itemId && report.playSessionId == playSessionId
  }

  /** The last report received with an item and a play session is sent, and is the last one sent with
      them. */
  lemma LastReportOfSessionIsLastSent(messages: seq<Message>, ready: seq<bool>, i: nat, itemId: string,
                                      playSessionId: Option<string>)
    requires i < |messages| == |ready| && messages[i].Report?
    requires Concerns(messages[i].report, itemId, playSessionId)
    requires forall j | i < j < |messages| && messages[j].Report? ::
               !Concerns(messages[j].report, itemId, playSessionId)
    ensures var log := Expected(messages, ready, |messages|);
            && EventAt(messages, i) in log
            && forall event <- log ::
                 event.Sent? && Concerns(event.report, itemId, playSessionId) ==> event.arrival <= i
  {
    LogIsSubsequence(messages, ready, |messages|);
    if Superseded(messages, ready, i) {
      var j := DroppedProgressHasSuccessor(messages, ready, i);
      assert false;
    }
  }

  /** When a flush is acknowledged, every report received before it was already sent, or a report
      of its session that supersedes it was received before the flush and already sent. */
  lemma FlushWaitsForEarlierReports(messages: seq<Message>, ready: seq<bool>, p: nat, i: nat)
    returns (q: nat)
    requires |messages| == |ready| && p < |Expected(messages, ready, |messages|)|
    requires Expected(messages, ready, |messages|)[p].Acked?
    requires i < |messages| && i < Expected(messages, ready, |messages|)[p].arrival && messages[i].Report?
    ensures var log := Expected(messages, ready, |messages|);
            q < p && log[q].Sent?
            && (log[q].arrival == i
                || (i < log[q].arrival < |messages| && MakesPointless(messages, log[q].arrival, i)))
  {
    var log := Expected(messages, ready, |messages|);
    LogIsSubsequence(messages, ready, |messages|);
    var flush, j := log[p].arrival, i;
    if Superseded(messages, ready, i) {
      j := DroppedProgressHasSuccessor(messages, ready, i);
      assert j > flush ==> !StartsBatch(messages, ready, flush + 1);
    }
    assert EventAt(messages, j) in log;
    q :| q < |log| && log[q] == EventAt(messages, j);
  }
}
