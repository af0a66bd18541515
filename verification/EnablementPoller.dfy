/** The poller object: the variables the closures share, and one method for each event turn. Each
    method is proved to take exactly the turn of the protocol it stands for. */
module EnablementPoller {
  import Powers
  import Runs
  import opened Wrappers
  import opened EnablementPolling

  class FileProviderEnablementPoller {
    var running: bool
    var visible: bool
    var inFlight: bool
    var transientFailures: nat
    var generation: nat
    var timer: Option<nat>
    var begun: nat                     // probes begun
    var pending: map<nat, nat>         // unfinished probes, with the generation captured by `poll`
    ghost var history: seq<Event>      // the turns taken so far

    function View(): Poller
      reads this
    {
      Poller(running, visible, inFlight, transientFailures, generation, timer, begun, pending)
    }

    /** The object is where a legal run of the protocol has brought it. */
    ghost predicate Valid()
      reads this
    {
      Legal(history) && View() == Run(history)
    }

    /** Any two unfinished probes are one. */
    ghost predicate AtMostOneProbe()
      reads this
    {
      forall p, q :: p in pending && q in pending ==> p == q
    }

    /** While polling is on and visible, either a timer is armed or a probe is unfinished, not both. */
    ghost predicate KeepsGoing()
      reads this
    {
      running && visible ==> (timer.Some? <==> pending == map[])
    }

    constructor ()
      ensures Valid() && history == []
    {
      running, visible, inFlight := false, true, false;
      transientFailures, generation, timer := 0, 0, None;
      begun, pending := 0, map[];
      history := [];
    }

    method ClearTimer()
      modifies this`timer
      ensures timer == None
    {
      if timer.Some? {
        timer := None;
      }
    }

    method ScheduleTimer(delay: nat)
      modifies this`timer
      ensures View() == Schedule(old(View()), delay)
    {
      ClearTimer();
      if !running || !visible || inFlight {
        return;
      }
      timer := Some(delay);
    }

    method StartPolling()
      requires Valid() && Enabled(View(), Event.Start)
      modifies this
      ensures Valid() && history == old(history) + [Event.Start]
      ensures View() == Next(old(View()), Event.Start)
      ensures AtMostOneProbe() && KeepsGoing()
    {
      Runs.Extend(PROTOCOL, history, Event.Start);
      history := history + [Event.Start];
      RunKeepsInvariant(history);
      if running {
        return;
      }
      generation := generation + 1;
      running := true;
      ScheduleTimer(0);
    }

    method StopPolling()
      requires Valid() && Enabled(View(), Event.Stop)
      modifies this
      ensures Valid() && history == old(history) + [Event.Stop]
      ensures View() == Next(old(View()), Event.Stop)
      ensures timer == None && AtMostOneProbe()
    {
      Runs.Extend(PROTOCOL, history, Event.Stop);
      history := history + [Event.Stop];
      RunKeepsInvariant(history);
      generation := generation + 1;
      running := false;
      ClearTimer();
    }

    method ChangeVisibility(nextVisible: bool)
      requires Valid() && Enabled(View(), Event.SetVisible(nextVisible))
      modifies this
      ensures Valid() && history == old(history) + [Event.SetVisible(nextVisible)]
      ensures View() == Next(old(View()), Event.SetVisible(nextVisible))
      ensures AtMostOneProbe() && KeepsGoing()
    {
      Runs.Extend(PROTOCOL, history, Event.SetVisible(nextVisible));
      history := history + [Event.SetVisible(nextVisible)];
      RunKeepsInvariant(history);
      if visible == nextVisible {
        return;
      }
      visible := nextVisible;
      if !visible {
        ClearTimer();
      } else if running {
        ScheduleTimer(0);
      }
    }

    method Catch(pollGeneration: nat)
      modifies this`transientFailures, this`timer
      ensures View() == Caught(old(View()), pollGeneration)
    {
      if !running || generation != pollGeneration {
        return;
      }
      transientFailures := transientFailures + 1;
      ScheduleTimer(Min(1000 * Powers.Pow2(transientFailures - 1), 5000));
    }

    method Finally()
      modifies this`inFlight, this`timer
      ensures View() == Finished(old(View()))
    {
      inFlight := false;
      if running && visible && timer.None? {
        var delay := if transientFailures == 0 then 1000 else Min(1000 * Powers.Pow2(transientFailures - 1), 5000);
        ScheduleTimer(delay);
      }
    }

    /** The rest of `poll` once `probe` has ended, up to the `finally` block. */
    method ContinuePoll(pollGeneration: nat, outcome: Outcome) returns (outputs: seq<Output>)
      modifies this`transientFailures, this`timer, this`running
      ensures (View(), outputs) == AfterProbe(old(View()), pollGeneration, outcome)
    {
      outputs := [];
      match outcome
      case Rejected =>
        Catch(pollGeneration);
      case Resolved(next, onReportThrows, onReadyThrows) =>
        if !running || generation != pollGeneration {
          return;
        }
        transientFailures := 0;
        outputs := [Reported(next)];
        if onReportThrows {
          Catch(pollGeneration);
          return;
        }
        if next.state.Ready? {
          running := false;
          outputs := outputs + [BecameReady(next)];
          if onReadyThrows {
            Catch(pollGeneration);
          }
          assert outputs == [Reported(next), BecameReady(next)];
          return;
        }
        if next.state.Unavailable? {
          running := false;
          return;
        }
        ScheduleTimer(1000);
    }

    /** The timer callback: `poll` up to its await, or to its end if `probe` throws at once. */
    method FireTimer(probeThrows: bool) returns (outputs: seq<Output>)
      requires Valid() && Enabled(View(), Event.TimerFires(probeThrows))
      modifies this
      ensures Valid() && history == old(history) + [Event.TimerFires(probeThrows)]
      ensures (View(), outputs) == Turn(old(View()), Event.TimerFires(probeThrows))
      ensures begun > old(begun) ==> old(pending) == map[]
      ensures AtMostOneProbe() && KeepsGoing()
    {
      RunKeepsInvariant(history);
      Runs.Extend(PROTOCOL, history, Event.TimerFires(probeThrows));
      history := history + [Event.TimerFires(probeThrows)];
      RunKeepsInvariant(history);
      outputs := [];
      timer := None;
      if !running || !visible || inFlight {
        return;
      }
      var pollGeneration := generation;
      inFlight := true;
      begun := begun + 1;
      if probeThrows {
        outputs := ContinuePoll(pollGeneration, Rejected);
        Finally();
      } else {
        pending := pending[begun - 1 := pollGeneration];
      }
    }

    method SettleProbe(probe: nat, outcome: Outcome) returns (outputs: seq<Output>)
      requires Valid() && Enabled(View(), Event.ProbeSettles(probe, outcome))
      modifies this
      ensures Valid() && history == old(history) + [Event.ProbeSettles(probe, outcome)]
      ensures (View(), outputs) == Turn(old(View()), Event.ProbeSettles(probe, outcome))
      ensures pending == map[] && KeepsGoing()
      ensures timer.Some? ==> timer == Some(Backoff(Streak(Counted(history))))
      ensures outputs == if StoppedSince(old(history), probe) then [] else Delivered(outcome)
    {
      AfterSettling(history, Event.ProbeSettles(probe, outcome));
      Runs.Extend(PROTOCOL, history, Event.ProbeSettles(probe, outcome));
      history := history + [Event.ProbeSettles(probe, outcome)];
      RunKeepsInvariant(history);
      var pollGeneration := pending[probe];
      pending := pending - {probe};
      outputs := ContinuePoll(pollGeneration, outcome);
      Finally();
    }
  }
}
