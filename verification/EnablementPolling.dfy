/** The protocol of the File Provider enablement poller: one timer, probes that complete late, and a
    generation that outdates them. The callbacks may throw, but do not call back into the poller. */
module EnablementPolling {
  import Powers
  import Runs
  import opened Wrappers

  datatype ReportState = NotRegistered | NeedsFinderEnable | WaitingForRoot | Ready | Unavailable

  datatype Report = Report(state: ReportState, message: string, path: Option<string>)

  /** How a probe ends, and whether the callbacks it leads to throw. */
  datatype Outcome =
    | Resolved(report: Report, onReportThrows: bool, onReadyThrows: bool)
    | Rejected

  datatype Output = Reported(report: Report) | BecameReady(report: Report)

  datatype Poller = Poller(
    running: bool,
    visible: bool,
    inFlight: bool,
    transientFailures: nat,
    generation: nat,
    timer: Option<nat>,                // the delay the timer was armed with
    begun: nat,                        // probes begun, which number themselves
    pending: map<nat, nat>             // unfinished probes with the generation they began in
  )

  datatype Event =
    | Start
    | Stop
    | SetVisible(visible: bool)
    | TimerFires(probeThrows: bool)    // a probe may throw before it returns a promise
    | ProbeSettles(probe: nat, outcome: Outcome)

  const INITIAL := Poller(false, true, false, 0, 0, None, 0, map[])

  function Min(a: nat, b: nat): nat {
    if a < b then a else b
  }

  function TransientDelay(failures: nat): nat
    requires failures > 0
  {
    Min(1000 * Powers.Pow2(failures - 1), 5000)
  }

  /** The pause after a number of failures in a row. */
  function Backoff(failures: nat): nat {
    if failures == 0 then 1000 else TransientDelay(failures)
  }

  function Schedule(s: Poller, delay: nat): Poller {
    if !s.running || !s.visible || s.inFlight then s.(timer := None) else s.(timer := Some(delay))
  }

  predicate Accepts(s: Poller, pollGeneration: nat) {
    s.running && s.generation == pollGeneration
  }

  /** The `catch` block. */
  function Caught(s: Poller, pollGeneration: nat): Poller {
    if !Accepts(s, pollGeneration) then s
    else
      var t := s.(transientFailures := s.transientFailures + 1);
      Schedule(t, TransientDelay(t.transientFailures))
  }

  /** The `finally` block. */
  function Finished(s: Poller): Poller {
    var t := s.(inFlight := false);
    if t.running && t.visible && t.timer.None? then
      Schedule(t, Backoff(t.transientFailures))
    else t
  }

  /** The rest of `poll` once the probe has ended, up to the `finally` block. */
  function AfterProbe(s: Poller, pollGeneration: nat, outcome: Outcome): (Poller, seq<Output>) {
    match outcome
    case Rejected => (Caught(s, pollGeneration), [])
    case Resolved(report, onReportThrows, onReadyThrows) =>
      if !Accepts(s, pollGeneration) then (s, [])
      else
        var t := s.(transientFailures := 0);
        if onReportThrows then (Caught(t, pollGeneration), [Reported(report)])
        else if report.state.Ready? then
          var u := t.(running := false);
          (if onReadyThrows then Caught(u, pollGeneration) else u, [Reported(report), BecameReady(report)])
        else if report.state.Unavailable? then (t.(running := false), [Reported(report)])
        else (Schedule(t, 1000), [Reported(report)])
  }

  predicate Enabled(s: Poller, e: Event) {
    match e
    case Start => true
    case Stop => true
    case SetVisible(_) => true
    case TimerFires(_) => s.timer.Some?
    case ProbeSettles(p, _) => p in s.pending
  }

  /** One event turn: the new state and the callbacks made. */
  function Turn(s: Poller, e: Event): (Poller, seq<Output>) {
    if !Enabled(s, e) then (s, []) else
    match e
    case Start =>
      if s.running then (s, []) else (Schedule(s.(generation := s.generation + 1, running := true), 0), [])
    case Stop => (s.(generation := s.generation + 1, running := false, timer := None), [])
    case SetVisible(visible) =>
      if s.visible == visible then (s, [])
      else
        var t := s.(visible := visible);
        if !visible then (t.(timer := None), [])
        else if t.running then (Schedule(t, 0), [])
        else (t, [])
    case TimerFires(probeThrows) =>
      var t := s.(timer := None);
      if !t.running || !t.visible || t.inFlight then (t, [])
      else
        var u := t.(inFlight := true, begun := t.begun + 1);
        if probeThrows then (Finished(AfterProbe(u, u.generation, Rejected).0), [])
        else (u.(pending := u.pending[t.begun := u.generation]), [])
    case ProbeSettles(p, outcome) =>
      var after := AfterProbe(s.(pending := s.pending - {p}), s.pending[p], outcome);
      (Finished(after.0), after.1)
  }

  function Next(s: Poller, e: Event): Poller {
    Turn(s, e).0
  }

  function Outputs(s: Poller, e: Event): seq<Output> {
    Turn(s, e).1
  }

  // ---------------------------------------------------------------- the invariant

  /** While polling is on and visible, exactly one of a timer and a probe is outstanding; a timer is
      armed only then; and at most one probe is unfinished, across all starts and stops. */
  ghost predicate Inv(s: Poller) {
    && (s.running && s.visible ==> (s.timer.Some? <==> !s.inFlight))
    && (s.timer.Some? ==> s.running && s.visible && !s.inFlight)
    && (s.inFlight <==> s.pending != map[])
    && (forall p, q :: p in s.pending && q in s.pending ==> p == q)
    && (forall p :: p in s.pending ==> p < s.begun && s.pending[p] <= s.generation)
    && (s.timer.Some? ==> s.timer == Some(0) || s.timer == Some(Backoff(s.transientFailures)))
  }

  lemma TurnKeepsInvariant(s: Poller, e: Event)
    requires Inv(s) && Enabled(s, e)
    ensures Inv(Next(s, e))
  {
    if e.ProbeSettles? {
      assert s.pending - {e.probe} == map[];
    }
    if e.TimerFires? {
      assert s.pending == map[];
      assert !e.probeThrows ==> s.begun in Next(s, e).pending;
    }
  }

  // ---------------------------------------------------------------- runs

  const PROTOCOL := Runs.Protocol(INITIAL, Enabled, Next)

  function Run(events: seq<Event>): Poller {
    Runs.Run(PROTOCOL, events)
  }

  predicate Legal(events: seq<Event>) {
    Runs.Legal(PROTOCOL, events)
  }

  /** The state before step i. */
  function At(events: seq<Event>, i: nat): Poller
    requires i <= |events|
  {
    Runs.At(PROTOCOL, events, i)
  }

  function OutputsAt(events: seq<Event>, i: nat): seq<Output>
    requires i < |events|
  {
    Outputs(At(events, i), events[i])
  }

  lemma {:induction false} RunKeepsInvariant(events: seq<Event>)
    requires Legal(events)
    ensures Inv(Run(events))
    decreases |events|
  {
    if events != [] {
      RunKeepsInvariant(events[..|events| - 1]);
      TurnKeepsInvariant(Run(events[..|events| - 1]), events[|events| - 1]);
    }
  }

  /** Polling never stalls and probes never overlap: in every reachable state that is running and
      visible, either the timer can fire or the one unfinished probe can settle, and not both. */
  lemma PollingNeverStalls(events: seq<Event>)
    requires Legal(events) && Run(events).running && Run(events).visible
    ensures Enabled(Run(events), TimerFires(false)) != exists p :: p in Run(events).pending
    ensures forall p, q :: p in Run(events).pending && q in Run(events).pending ==> p == q
    ensures Enabled(Run(events), TimerFires(false)) ==>
              Next(Run(events), TimerFires(false)).pending == map[Run(events).begun := Run(events).generation]
  {
    RunKeepsInvariant(events);
    var s := Run(events);
    if s.inFlight {
      var p :| p in s.pending;
    }
  }

  // ---------------------------------------------------------------- outdated probes

  lemma TurnGrows(s: Poller, e: Event)
    ensures s.generation <= Next(s, e).generation && s.begun <= Next(s, e).begun
  {
  }

  lemma TurnKeepsProbe(s: Poller, e: Event, p: nat)
    requires p < s.begun && p in Next(s, e).pending
    ensures p in s.pending && Next(s, e).pending[p] == s.pending[p]
  {
    if e.ProbeSettles? && e.probe in s.pending {
      PollKeepsProbes(s.(pending := s.pending - {e.probe}), s.pending[e.probe], e.outcome);
    } else if e.TimerFires? && e.probeThrows {
      PollKeepsProbes(s.(timer := None, inFlight := true, begun := s.begun + 1), s.generation, Rejected);
    }
  }

  /** The end of a poll leaves the probes alone. */
  lemma PollKeepsProbes(s: Poller, pollGeneration: nat, outcome: Outcome)
    ensures Finished(AfterProbe(s, pollGeneration, outcome).0).pending == s.pending
  {
  }

  lemma {:induction false} GenerationGrows(events: seq<Event>, i: nat)
    requires i <= |events|
    ensures At(events, i).generation <= Run(events).generation
    ensures At(events, i).begun <= Run(events).begun
    decreases |events|
  {
    var n := |events|;
    if i == n {
      assert events[..n] == events;
    } else {
      assert events[..n - 1][..i] == events[..i];
      GenerationGrows(events[..n - 1], i);
      TurnGrows(Run(events[..n - 1]), events[n - 1]);
    }
  }

  /** A probe keeps the generation it began in for as long as it is unfinished. */
  lemma {:induction false} ProbeKeepsGeneration(events: seq<Event>, i: nat, p: nat)
    requires i <= |events| && p < At(events, i).begun
    requires p in At(events, i).pending && p in Run(events).pending
    ensures Run(events).pending[p] == At(events, i).pending[p]
    decreases |events|
  {
    var n := |events|;
    if i == n {
      assert events[..n] == events;
    } else {
      var before := events[..n - 1];
      assert before[..i] == events[..i];
      GenerationGrows(before, i);
      TurnKeepsProbe(Run(before), events[n - 1], p);
      ProbeKeepsGeneration(before, i, p);
    }
  }

  /** A probe that was unfinished when `stop` was called calls nobody back, whatever happens between. */
  lemma StoppedProbeIsSilent(events: seq<Event>, j: nat, k: nat, p: nat, outcome: Outcome)
    requires Legal(events) && j < k < |events|
    requires events[j].Stop? && p in At(events, j).pending && events[k] == ProbeSettles(p, outcome)
    ensures OutputsAt(events, k) == []
  {
    Runs.LegalPrefix(PROTOCOL, events, j);
    RunKeepsInvariant(events[..j]);
    Runs.LegalPrefix(PROTOCOL, events, k);
    assert events[..k][..j] == events[..j] && events[..k][..j + 1] == events[..j + 1];
    ProbeKeepsGeneration(events[..k], j, p);
    GenerationGrows(events[..k], j + 1);
  }

  // ---------------------------------------------------------------- delivery

  /** How often the timer has fired, which is how the probes are numbered. */
  function Firings(events: seq<Event>): nat {
    if events == [] then 0
    else Firings(events[..|events| - 1]) + if events[|events| - 1].TimerFires? then 1 else 0
  }

  lemma TurnCountsFirings(s: Poller, e: Event)
    requires Inv(s) && Enabled(s, e)
    ensures Next(s, e).begun == s.begun + if e.TimerFires? then 1 else 0
  {
  }

  lemma {:induction false} BegunCountsFirings(events: seq<Event>)
    requires Legal(events)
    ensures Run(events).begun == Firings(events)
    decreases |events|
  {
    if events != [] {
      var before := events[..|events| - 1];
      BegunCountsFirings(before);
      RunKeepsInvariant(before);
      TurnCountsFirings(Run(before), events[|events| - 1]);
    }
  }

  /** Step b is the firing of the timer that begins probe p. */
  predicate BeginsAt(events: seq<Event>, b: nat, p: nat) {
    b < |events| && events[b] == TimerFires(false) && Firings(events[..b]) == p
  }

  /** Step i is a `start` that was not ignored. */
  predicate StartsAt(events: seq<Event>, i: nat) {
    i < |events| && events[i].Start? && !At(events, i).running
  }

  /** There is a stop after step b and before step k. */
  predicate StoppedBetween(events: seq<Event>, b: nat, k: nat)
    requires k <= |events|
  {
    exists j: nat :: b < j < k && events[j].Stop?
  }

  lemma FiringBeginsProbe(s: Poller)
    requires Inv(s) && Enabled(s, TimerFires(false))
    ensures var t := Next(s, TimerFires(false));
            t.pending == map[s.begun := s.generation] && Accepts(t, s.generation)
  {
  }

  /** While a probe is unfinished its report stays wanted unless there is a stop, and is not wanted again. */
  lemma TurnKeepsAcceptance(s: Poller, e: Event, p: nat)
    requires Inv(s) && Enabled(s, e) && p in s.pending && p in Next(s, e).pending
    ensures Next(s, e).pending[p] == s.pending[p]
    ensures Accepts(Next(s, e), s.pending[p]) <==> Accepts(s, s.pending[p]) && !e.Stop?
  {
    TurnKeepsProbe(s, e, p);
  }

  /** An unfinished probe was begun by a firing of the timer. */
  lemma {:induction false} UnfinishedProbeBegan(events: seq<Event>, p: nat)
    requires Legal(events) && p in Run(events).pending
    ensures exists b: nat :: BeginsAt(events, b, p)
    decreases |events|
  {
    var n := |events| - 1;
    var before := events[..n];
    RunKeepsInvariant(before);
    BegunCountsFirings(before);
    if p in Run(before).pending {
      UnfinishedProbeBegan(before, p);
      var b: nat :| BeginsAt(before, b, p);
      assert before[..b] == events[..b];
      assert BeginsAt(events, b, p);
    } else {
      if p < Run(before).begun {
        TurnKeepsProbe(Run(before), events[n], p);
        assert false;
      }
      RunKeepsInvariant(events);
      assert BeginsAt(events, n, p);
    }
  }

  lemma BegunProbe(events: seq<Event>, b: nat, p: nat)
    requires Legal(events) && BeginsAt(events, b, p)
    ensures At(events, b + 1).begun == p + 1 && p in At(events, b + 1).pending
    ensures Accepts(At(events, b + 1), At(events, b + 1).pending[p])
  {
    Runs.LegalPrefix(PROTOCOL, events, b);
    RunKeepsInvariant(events[..b]);
    BegunCountsFirings(events[..b]);
    FiringBeginsProbe(At(events, b));
  }

  lemma StoppedBetweenStep(events: seq<Event>, b: nat)
    requires b < |events| - 1
    ensures StoppedBetween(events, b, |events|) <==>
            StoppedBetween(events[..|events| - 1], b, |events| - 1) || events[|events| - 1].Stop?
  {
    var before := events[..|events| - 1];
    assert forall j: nat :: j < |before| ==> before[j] == events[j];
  }

  /** What a turn does to an unfinished probe, in a run. */
  lemma LastTurnKeepsAcceptance(events: seq<Event>, b: nat, p: nat)
    requires Legal(events) && BeginsAt(events, b, p) && b < |events| - 1 && p in Run(events).pending
    ensures var before := events[..|events| - 1];
            && BeginsAt(before, b, p) && p in Run(before).pending
            && Run(events).pending[p] == Run(before).pending[p]
            && (Accepts(Run(events), Run(events).pending[p]) <==>
                Accepts(Run(before), Run(before).pending[p]) && !events[|events| - 1].Stop?)
  {
    var before := events[..|events| - 1];
    BegunProbe(events, b, p);
    assert before[..b] == events[..b] && before[..b + 1] == events[..b + 1];
    GenerationGrows(before, b + 1);
    RunKeepsInvariant(before);
    TurnKeepsProbe(Run(before), events[|events| - 1], p);
    TurnKeepsAcceptance(Run(before), events[|events| - 1], p);
  }

  /** As long as a probe is unfinished, its report is wanted exactly if there was no stop since it began. */
  lemma {:induction false} WantedIffNotStopped(events: seq<Event>, b: nat, p: nat)
    requires Legal(events) && BeginsAt(events, b, p) && p in Run(events).pending
    ensures Accepts(Run(events), Run(events).pending[p]) <==> !StoppedBetween(events, b, |events|)
    decreases |events|
  {
    if b == |events| - 1 {
      BegunProbe(events, b, p);
      assert events[..b + 1] == events;
    } else {
      LastTurnKeepsAcceptance(events, b, p);
      StoppedBetweenStep(events, b);
      WantedIffNotStopped(events[..|events| - 1], b, p);
    }
  }

  /** A probe that settles was begun by a firing of the timer before. */
  lemma SettlingProbeBegan(events: seq<Event>, k: nat, p: nat, outcome: Outcome)
    requires Legal(events) && k < |events| && events[k] == ProbeSettles(p, outcome)
    ensures exists b: nat :: b < k && BeginsAt(events, b, p)
  {
    Runs.LegalPrefix(PROTOCOL, events, k);
    UnfinishedProbeBegan(events[..k], p);
    var b: nat :| BeginsAt(events[..k], b, p);
    assert events[..k][..b] == events[..b];
    assert b < k && BeginsAt(events, b, p);
  }

  /** Every report is delivered unless there was a stop while it was fetched: a probe that settles with a
      report calls `onReport` with that report, and then `onReady` exactly for ready if `onReport` returns;
      after a stop since it began it calls nobody. A probe that fails calls nobody either. */
  lemma ReportIsDeliveredIff(events: seq<Event>, b: nat, k: nat, p: nat, outcome: Outcome)
    requires Legal(events) && b < k < |events| && BeginsAt(events, b, p) && events[k] == ProbeSettles(p, outcome)
    ensures OutputsAt(events, k)
         == if outcome.Rejected? || StoppedBetween(events, b, k) then []
            else if outcome.report.state.Ready? && !outcome.onReportThrows then [Reported(outcome.report), BecameReady(outcome.report)]
            else [Reported(outcome.report)]
  {
    Runs.LegalPrefix(PROTOCOL, events, k);
    assert events[..k][..b] == events[..b];
    WantedIffNotStopped(events[..k], b, p);
    assert StoppedBetween(events[..k], b, k) <==> StoppedBetween(events, b, k);
  }

  /** Nothing but a probe that settles with a report calls anybody back. */
  lemma OnlyReportsAreDelivered(events: seq<Event>, k: nat)
    requires k < |events| && OutputsAt(events, k) != []
    ensures events[k].ProbeSettles? && events[k].outcome.Resolved?
  {
  }

  lemma {:induction false} UnfinishedBetween(events: seq<Event>, b: nat, j: nat, p: nat)
    requires Legal(events) && BeginsAt(events, b, p) && b < j <= |events| && p in Run(events).pending
    ensures p in At(events, j).pending
    decreases |events|
  {
    var n := |events| - 1;
    if j == |events| {
      assert events[..j] == events;
    } else {
      var before := events[..n];
      BegunProbe(events, b, p);
      assert before[..b] == events[..b] && before[..b + 1] == events[..b + 1] && before[..j] == events[..j];
      GenerationGrows(before, b + 1);
      TurnKeepsProbe(Run(before), events[n], p);
      UnfinishedBetween(before, b, j, p);
    }
  }

  /** While a probe is unfinished polling cannot be switched off but by a stop, nor on but after one: no
      stop since it began means the same as polling on with neither a stop nor a start since. */
  lemma NotStoppedIffUndisturbed(events: seq<Event>, b: nat, k: nat, p: nat)
    requires Legal(events) && BeginsAt(events, b, p) && b < k <= |events| && p in At(events, k).pending
    ensures !StoppedBetween(events, b, k) <==>
            At(events, k).running && forall j: nat :: b < j < k ==> !events[j].Stop? && !StartsAt(events, j)
  {
    if !StoppedBetween(events, b, k) {
      forall j: nat | b < j <= k ensures At(events, j).running {
        Runs.LegalPrefix(PROTOCOL, events, k);
        Runs.LegalPrefix(PROTOCOL, events, j);
        assert events[..k][..b] == events[..b] && events[..k][..j] == events[..j] && events[..j][..b] == events[..b];
        UnfinishedBetween(events[..k], b, j, p);
        WantedIffNotStopped(events[..j], b, p);
      }
    }
  }

  // ---------------------------------------------------------------- timers that fire at once

  /** The last visibility that was set; visible to begin with. */
  function LastVisible(events: seq<Event>): bool {
    if events == [] then true
    else if events[|events| - 1].SetVisible? then events[|events| - 1].visible
    else LastVisible(events[..|events| - 1])
  }

  lemma {:induction false} VisibleIsLastSet(events: seq<Event>)
    requires Legal(events)
    ensures Run(events).visible == LastVisible(events)
    decreases |events|
  {
    if events != [] {
      VisibleIsLastSet(events[..|events| - 1]);
    }
  }

  /** A start, and becoming visible, arm a timer without delay, if polling is then on and visible and no
      probe is unfinished; becoming hidden and a stop leave none armed. */
  lemma ArmedAtOnceIff(events: seq<Event>, e: Event)
    requires Legal(events)
    requires (e.Start? && !Run(events).running) || (e.SetVisible? && e.visible != LastVisible(events)) || e.Stop?
    ensures Next(Run(events), e).timer
         == if (e.Start? || Run(events).running) && !e.Stop? && LastVisible(events + [e]) && Run(events).pending == map[]
            then Some(0) else None
  {
    RunKeepsInvariant(events);
    VisibleIsLastSet(events);
    assert (events + [e])[..|events|] == events;
  }

  // ---------------------------------------------------------------- completion

  predicate SaysReady(outputs: seq<Output>) {
    exists i :: 0 <= i < |outputs| && outputs[i].BecameReady?
  }

  lemma {:induction false} RunningNeedsStart(events: seq<Event>, i: nat)
    requires Legal(events) && i <= |events| && !At(events, i).running && Run(events).running
    ensures exists j: nat :: i <= j < |events| && StartsAt(events, j)
    decreases |events|
  {
    var n := |events|;
    assert events[..n] == events;
    var before := events[..n - 1];
    assert before[..i] == events[..i];
    if Run(before).running {
      RunningNeedsStart(before, i);
      var j: nat :| i <= j < |before| && StartsAt(before, j);
      assert before[..j] == events[..j];
      assert StartsAt(events, j);
    } else {
      assert StartsAt(events, n - 1);
    }
  }

  /** A report that says polling is over. */
  predicate IsFinal(report: Report) {
    report.state.Ready? || report.state.Unavailable?
  }

  /** A probe's report is taken in, `onReport` returns, and the report is final. */
  predicate EndsPolling(s: Poller, e: Event) {
    && e.ProbeSettles? && e.probe in s.pending && Accepts(s, s.pending[e.probe])
    && e.outcome.Resolved? && !e.outcome.onReportThrows && IsFinal(e.outcome.report)
  }

  /** A turn that makes a report switches polling off exactly if the report is final and `onReport`
      returned, whatever `onReady` does. Then nothing is armed or in flight; otherwise polling goes on,
      with the timer armed if visible: after one second, also for a final report whose `onReport` threw,
      which is then not followed by `onReady`. */
  lemma ReportEndsPollingIff(s: Poller, e: Event)
    requires Inv(s) && Enabled(s, e) && Outputs(s, e) != []
    ensures s.running && e.ProbeSettles? && e.outcome.Resolved? && Outputs(s, e)[0] == Reported(e.outcome.report)
    ensures !Next(s, e).running <==> IsFinal(e.outcome.report) && !e.outcome.onReportThrows
    ensures !Next(s, e).running <==> EndsPolling(s, e)
    ensures SaysReady(Outputs(s, e)) <==> e.outcome.report.state.Ready? && !e.outcome.onReportThrows
    ensures Next(s, e).timer == if Next(s, e).running && s.visible then Some(1000) else None
    ensures !Next(s, e).inFlight
  {
    TurnKeepsInvariant(s, e);
    assert s.pending - {e.probe} == map[];
    assert Outputs(s, e)[0].Reported?;
    if e.outcome.report.state.Ready? && !e.outcome.onReportThrows {
      assert Outputs(s, e)[1].BecameReady?;
    }
  }

  /** `stop`, and a final report, are all that switches polling off, and `start` all that switches it on. */
  lemma RunningAfterTurn(s: Poller, e: Event)
    requires Enabled(s, e)
    ensures Next(s, e).running <==> e.Start? || (s.running && !e.Stop? && !EndsPolling(s, e))
  {
  }

  /** Step i is a stop, or ends polling by a final report. */
  predicate SwitchesOffAt(events: seq<Event>, i: nat) {
    i < |events| && (events[i].Stop? || EndsPolling(At(events, i), events[i]))
  }

  /** Step i starts polling for good: nothing switches it off afterwards. */
  ghost predicate StartsForGood(events: seq<Event>, i: nat) {
    && i < |events| && events[i].Start?
    && forall k: nat :: i < k < |events| ==> !SwitchesOffAt(events, k)
  }

  lemma StartsForGoodStep(events: seq<Event>, i: nat)
    requires i < |events| - 1
    ensures StartsForGood(events, i) <==>
            StartsForGood(events[..|events| - 1], i) && !SwitchesOffAt(events, |events| - 1)
  {
    var before := events[..|events| - 1];
    assert forall k: nat :: k < |before| ==> before[..k] == events[..k];
    assert forall k: nat :: k < |before| ==> (SwitchesOffAt(before, k) <==> SwitchesOffAt(events, k));
  }

  /** In every run polling is on exactly if neither a stop nor a final report has followed some start;
      a report whose callback threw does not count as one. */
  lemma {:induction false} RunningIffStartedForGood(events: seq<Event>)
    requires Legal(events)
    ensures Run(events).running <==> exists i: nat :: StartsForGood(events, i)
    decreases |events|
  {
    if events != [] {
      var n := |events| - 1;
      var before := events[..n];
      RunningIffStartedForGood(before);
      RunningAfterTurn(Run(before), events[n]);
      if events[n].Start? {
        assert StartsForGood(events, n);
      } else if Run(before).running && !SwitchesOffAt(events, n) {
        var i: nat :| StartsForGood(before, i);
        StartsForGoodStep(events, i);
      }
      forall i: nat | StartsForGood(events, i) ensures Run(events).running {
        if i < n {
          StartsForGoodStep(events, i);
        }
      }
    }
  }

  /** A run in which unavailable, and one in which ready, is reported by a callback that throws: polling
      goes on with a timer armed, and `onReady` is not called. */
  lemma ThrowingReportDoesNotEndPolling(report: Report, onReadyThrows: bool) returns (events: seq<Event>)
    requires IsFinal(report)
    ensures Legal(events) && |events| == 3 && OutputsAt(events, 2) == [Reported(report)]
    ensures Run(events).running && Run(events).timer == Some(1000)
  {
    events := [];
    Runs.Extend(PROTOCOL, events, Start);
    events := events + [Start];
    assert Run(events).timer == Some(0);
    Runs.Extend(PROTOCOL, events, TimerFires(false));
    events := events + [TimerFires(false)];
    var s := Run(events);
    assert 0 in s.pending;
    var e := ProbeSettles(0, Resolved(report, true, onReadyThrows));
    Runs.Extend(PROTOCOL, events, e);
    assert (events + [e])[..2] == events;
    events := events + [e];
  }

  /** After ready, and after unavailable, nothing is armed and nothing runs until the next start. */
  lemma NothingArmedAfterEnd(events: seq<Event>, i: nat, k: nat)
    requires Legal(events) && i < k <= |events| && EndsPolling(At(events, i), events[i])
    ensures (!At(events, k).running && At(events, k).timer == None) || exists j: nat :: i < j < k && StartsAt(events, j)
  {
    Runs.LegalPrefix(PROTOCOL, events, i);
    RunningAfterTurn(At(events, i), events[i]);
    Runs.LegalPrefix(PROTOCOL, events, k);
    RunKeepsInvariant(events[..k]);
    assert events[..k][..i + 1] == events[..i + 1];
    if At(events, k).running {
      RunningNeedsStart(events[..k], i + 1);
      var j: nat :| i + 1 <= j < k && StartsAt(events[..k], j);
      assert events[..k][..j] == events[..j];
      assert StartsAt(events, j);
    }
  }

  lemma ReadyEndsPolling(events: seq<Event>, i: nat)
    requires Legal(events) && i < |events| && SaysReady(OutputsAt(events, i))
    ensures At(events, i).running && EndsPolling(At(events, i), events[i])
  {
    Runs.LegalPrefix(PROTOCOL, events, i);
    RunKeepsInvariant(events[..i]);
    ReportEndsPollingIff(At(events, i), events[i]);
  }

  /** `onReady` is called at most once for each `start`: between two calls there is a start. */
  lemma ReadyOncePerStart(events: seq<Event>, i: nat, k: nat)
    requires Legal(events) && i < k < |events|
    requires SaysReady(OutputsAt(events, i)) && SaysReady(OutputsAt(events, k))
    ensures exists j: nat :: i < j < k && StartsAt(events, j)
  {
    ReadyEndsPolling(events, i);
    ReadyEndsPolling(events, k);
    NothingArmedAfterEnd(events, i, k);
  }

  // ---------------------------------------------------------------- delays

  /** The results of the probes that counted, in order: true for a report that was taken in. */
  function Counted(events: seq<Event>): seq<bool> {
    if events == [] then []
    else
      var before, e := events[..|events| - 1], events[|events| - 1];
      Counted(before) + CountedBy(Run(before), e)
  }

  /** A probe counts if its poller is still running in the generation it began in. A report whose
      callback throws counts as taken in and then as failed. */
  function CountedBy(s: Poller, e: Event): seq<bool> {
    match e
    case TimerFires(probeThrows) =>
      if s.timer.Some? && s.running && s.visible && !s.inFlight && probeThrows then [false] else []
    case ProbeSettles(p, outcome) =>
      if p in s.pending && Accepts(s, s.pending[p]) then
        match outcome
        case Rejected => [false]
        case Resolved(_, onReportThrows, _) => if onReportThrows then [true, false] else [true]
      else []
    case _ => []
  }

  /** How many of the last results in a row are failures. */
  function Streak(results: seq<bool>): nat {
    if results == [] || results[|results| - 1] then 0 else 1 + Streak(results[..|results| - 1])
  }

  lemma StreakAppend(results: seq<bool>, more: seq<bool>)
    requires more == [] || more == [false] || more == [true] || more == [true, false]
    ensures Streak(results + more)
         == if more == [] then Streak(results) else if more == [false] then Streak(results) + 1
            else if more == [true] then 0 else 1
  {
    var all := results + more;
    if more == [] {
      assert all == results;
    } else if more == [true, false] {
      assert all[..|all| - 1] == results + [true];
    } else {
      assert all[..|all| - 1] == results;
    }
  }

  lemma TurnCountsFailures(s: Poller, e: Event)
    requires Inv(s) && Enabled(s, e)
    ensures var more := CountedBy(s, e);
            && (more == [] || more == [false] || more == [true] || more == [true, false])
            && Next(s, e).transientFailures
               == if more == [] then s.transientFailures else if more == [false] then s.transientFailures + 1
                  else if more == [true] then 0 else 1
  {
  }

  lemma TurnArmsBackoff(s: Poller, e: Event)
    requires Inv(s) && Enabled(s, e) && Next(s, e).timer.Some?
    requires e.ProbeSettles? || (e.TimerFires? && e.probeThrows)
    ensures Next(s, e).timer == Some(Backoff(Next(s, e).transientFailures))
  {
  }

  /** The counter of the poller is the number of failures in a row since the last report taken in,
      across all starts and stops. */
  lemma {:induction false} FailuresAreTheStreak(events: seq<Event>)
    requires Legal(events)
    ensures Run(events).transientFailures == Streak(Counted(events))
    decreases |events|
  {
    if events != [] {
      var before, e := events[..|events| - 1], events[|events| - 1];
      FailuresAreTheStreak(before);
      RunKeepsInvariant(before);
      TurnCountsFailures(Run(before), e);
      StreakAppend(Counted(before), CountedBy(Run(before), e));
    }
  }

  lemma StreakAfterTurn(events: seq<Event>, e: Event)
    requires Legal(events) && Enabled(Run(events), e)
    ensures Next(Run(events), e).transientFailures == Streak(Counted(events + [e]))
  {
    Runs.Extend(PROTOCOL, events, e);
    FailuresAreTheStreak(events + [e]);
  }

  lemma BackoffIsCapped(failures: nat)
    ensures Backoff(failures) == if failures == 0 then 1000 else Min(1000 * Powers.Pow2(failures - 1), 5000)
  {
  }

  /** When a turn ends a probe and a timer is armed after it, the delay is one second after a success and
      min(1000 * 2^(k-1), 5000) milliseconds after k failures in a row. */
  lemma DelayAfterProbe(events: seq<Event>, e: Event)
    requires Legal(events) && Enabled(Run(events), e) && Next(Run(events), e).timer.Some?
    requires e.ProbeSettles? || (e.TimerFires? && e.probeThrows)
    ensures var k := Streak(Counted(events + [e]));
            Next(Run(events), e).timer == Some(if k == 0 then 1000 else Min(1000 * Powers.Pow2(k - 1), 5000))
  {
    RunKeepsInvariant(events);
    StreakAfterTurn(events, e);
    TurnArmsBackoff(Run(events), e);
    BackoffIsCapped(Streak(Counted(events + [e])));
  }

  /** There has been a stop since the probe began. */
  ghost predicate StoppedSince(events: seq<Event>, p: nat) {
    exists b: nat :: BeginsAt(events, b, p) && StoppedBetween(events, b, |events|)
  }

  /** The callbacks that a probe leads to if its report is wanted. */
  function Delivered(outcome: Outcome): seq<Output> {
    match outcome
    case Rejected => []
    case Resolved(report, onReportThrows, _) =>
      [Reported(report)] + if report.state.Ready? && !onReportThrows then [BecameReady(report)] else []
  }

  lemma DeliveredUnlessStopped(events: seq<Event>, e: Event, b: nat)
    requires Legal(events) && Enabled(Run(events), e) && e.ProbeSettles? && BeginsAt(events, b, e.probe)
    ensures Outputs(Run(events), e) == if StoppedBetween(events, b, |events|) then [] else Delivered(e.outcome)
  {
    var all := events + [e];
    Runs.Extend(PROTOCOL, events, e);
    assert all[..b] == events[..b] && all[..|events|] == events;
    ReportIsDeliveredIff(all, b, |events|, e.probe, e.outcome);
    assert StoppedBetween(all, b, |events|) <==> StoppedBetween(events, b, |events|);
  }

  lemma OutputsOfSettling(events: seq<Event>, e: Event)
    requires Legal(events) && Enabled(Run(events), e) && e.ProbeSettles?
    ensures Outputs(Run(events), e) == if StoppedSince(events, e.probe) then [] else Delivered(e.outcome)
  {
    UnfinishedProbeBegan(events, e.probe);
    var b: nat :| BeginsAt(events, b, e.probe) && (StoppedSince(events, e.probe) ==> StoppedBetween(events, b, |events|));
    DeliveredUnlessStopped(events, e, b);
  }

  lemma NoProbeAfterSettling(events: seq<Event>, e: Event)
    requires Legal(events) && Enabled(Run(events), e) && e.ProbeSettles?
    ensures Next(Run(events), e).pending == map[]
  {
    RunKeepsInvariant(events);
    PollKeepsProbes(Run(events).(pending := Run(events).pending - {e.probe}), Run(events).pending[e.probe], e.outcome);
    assert Run(events).pending - {e.probe} == map[];
  }

  /** What the turn of a settling probe leaves behind, in any run: no unfinished probe, the delay that the
      failures in a row call for, and the callbacks made unless there was a stop since the probe began. */
  lemma AfterSettling(events: seq<Event>, e: Event)
    requires Legal(events) && Enabled(Run(events), e) && e.ProbeSettles?
    ensures Next(Run(events), e).pending == map[]
    ensures Next(Run(events), e).timer.Some? ==> Next(Run(events), e).timer == Some(Backoff(Streak(Counted(events + [e]))))
    ensures Outputs(Run(events), e) == if StoppedSince(events, e.probe) then [] else Delivered(e.outcome)
  {
    NoProbeAfterSettling(events, e);
    OutputsOfSettling(events, e);
    if Next(Run(events), e).timer.Some? {
      DelayAfterProbe(events, e);
    }
  }

  /** The delays in figures. */
  lemma BackoffFigures(failures: nat)
    ensures Backoff(failures) == if failures <= 1 then 1000 else if failures == 2 then 2000 else if failures == 3 then 4000 else 5000
  {
    if failures >= 4 {
      Pow2AtLeast8(failures - 1);
    }
  }

  lemma {:induction false} Pow2AtLeast8(n: nat)
    requires n >= 3
    ensures Powers.Pow2(n) >= 8
  {
    if n > 3 {
      Pow2AtLeast8(n - 1);
    }
  }
}
