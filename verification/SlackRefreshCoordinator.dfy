/** The coordinator object itself: its fields, and one method for what runs between two awaits. Each
    method is proved to take exactly the step of the protocol it stands for. */
module SlackRefreshCoordinator {
  import Runs
  import opened Wrappers
  import opened SlackRefresh

  class SlackRefreshCoordinatorCore {
    var nowMs: nat                                // the clock, read through `nowSeconds`
    var stored: Option<CachedRefresh>             // storage under the one key
    var alarmAtMs: Option<int>
    var inFlight: Option<FlightId>
    var flights: seq<Flight>                      // calls of refreshAndPersist
    var requests: map<RequestId, Request>         // calls of fetch

    ghost var history: seq<Event>                 // the steps taken so far

    function View(): State
      reads this
    {
      State(nowMs, stored, alarmAtMs, inFlight, flights, requests)
    }

    /** The object is where a legal run of the protocol has brought it. */
    ghost predicate Valid()
      reads this
    {
      Legal(history) && View() == Run(history)
    }

    constructor ()
      ensures Valid() && history == []
      ensures View() == INITIAL
    {
      nowMs, stored, alarmAtMs, inFlight, flights, requests := 0, None, None, None, [], map[];
      history := [];
    }

    method AdvanceClock(ms: nat)
      requires Valid() && Enabled(View(), Event.Tick(ms))
      modifies this
      ensures Valid() && history == old(history) + [Event.Tick(ms)]
      ensures View() == Next(old(View()), Event.Tick(ms))
    {
      Runs.Extend(PROTOCOL, history, Event.Tick(ms));
      history := history + [Event.Tick(ms)];
      nowMs := ms;
    }

    /** `fetch` up to its first storage read. */
    method Fetch(r: RequestId, incoming: Incoming)
      requires Valid() && Enabled(View(), Event.Arrive(r, incoming))
      modifies this
      ensures Valid() && history == old(history) + [Event.Arrive(r, incoming)]
      ensures View() == Next(old(View()), Event.Arrive(r, incoming))
    {
      Runs.Extend(PROTOCOL, history, Event.Arrive(r, incoming));
      history := history + [Event.Arrive(r, incoming)];
      if incoming.WrongMethod? {
        requests := requests[r := Answered(Failure(HttpError(405, "method_not_allowed")))];
        return;
      }
      if incoming.UnreadableBody? {
        requests := requests[r := Answered(Failure(HttpError(500, "internal_error")))];
        return;
      }
      if incoming.MissingHandle? {
        requests := requests[r := Answered(Failure(HttpError(400, "missing_refresh_handle")))];
        return;
      }
      requests := requests[r := ReadingCache];
    }

    /** `cachedRefresh`: the stored entry, unless there is none or it has expired. */
    method ReadCached() returns (cached: Option<CachedRefresh>)
      ensures cached.Some? <==> IsFresh(stored, Seconds(nowMs))
      ensures cached.Some? ==> cached == stored
    {
      cached := stored;
      if cached.None? || cached.value.expiresAt <= Seconds(nowMs) {
        return None;
      }
    }

    /** `coalescedRefresh`: joins the refresh in flight, starting one if there is none. */
    method CoalescedRefresh() returns (f: FlightId)
      modifies this`inFlight, this`flights
      ensures inFlight == Some(f)
      ensures old(inFlight).Some? ==> f == old(inFlight).value && flights == old(flights)
      ensures old(inFlight).None? ==> f == |old(flights)| && flights == old(flights) + [Resolving]
    {
      if inFlight.None? {
        inFlight := Some(|flights|);
        flights := flights + [Resolving];
      }
      f := inFlight.value;
    }

    /** `fetch` from its storage read to its next await. A refresh starts only if every entry ever stored
        has expired. */
    method ContinueWithCache(r: RequestId)
      requires Valid() && Enabled(View(), Event.ReadCache(r))
      modifies this
      ensures Valid() && history == old(history) + [Event.ReadCache(r)]
      ensures View() == Next(old(View()), Event.ReadCache(r))
      ensures |flights| > |old(flights)| ==> forall c :: c in Committed(old(history)) ==> c.expiresAt <= Seconds(nowMs)
    {
      if |Next(View(), Event.ReadCache(r)).flights| > |flights| {
        StartMeansAllExpired(history, r);
      }
      Runs.Extend(PROTOCOL, history, Event.ReadCache(r));
      history := history + [Event.ReadCache(r)];
      var cached := ReadCached();
      if cached.Some? {
        requests := requests[r := Replaying(cached.value)];
      } else {
        var f := CoalescedRefresh();
        requests := requests[r := Waiting(f)];
      }
    }

    method AnswerError(r: RequestId, error: HttpError)
      requires r in requests
      modifies this`requests
      ensures requests == old(requests)[r := Answered(Failure(error))]
    {
      requests := requests[r := Answered(Failure(error))];
    }

    method FailRead(r: RequestId, error: HttpError)
      requires Valid() && Enabled(View(), Event.ReadFails(r, error))
      modifies this
      ensures Valid() && history == old(history) + [Event.ReadFails(r, error)]
      ensures View() == Next(old(View()), Event.ReadFails(r, error))
    {
      Runs.Extend(PROTOCOL, history, Event.ReadFails(r, error));
      history := history + [Event.ReadFails(r, error)];
      AnswerError(r, error);
    }

    // `refreshAndPersist`, from await to await.

    /** Slack is asked by one refresh at a time, and only after every entry ever stored has expired. */
    method AskProvider(f: FlightId)
      requires Valid() && Enabled(View(), Event.CallProvider(f))
      modifies this
      ensures Valid() && history == old(history) + [Event.CallProvider(f)]
      ensures View() == Next(old(View()), Event.CallProvider(f))
      ensures inFlight == Some(f)
      ensures forall c :: c in Committed(old(history)) ==> c.expiresAt <= Seconds(nowMs)
      ensures forall g :: 0 <= g < |flights| && flights[g].Calling? ==> g == f
    {
      UnfinishedMeansAllExpired(history, f);
      RunKeepsInvariant(history);
      Runs.Extend(PROTOCOL, history, Event.CallProvider(f));
      history := history + [Event.CallProvider(f)];
      flights := flights[f := Calling];
    }

    method ReceiveToken(f: FlightId)
      requires Valid() && Enabled(View(), Event.ProviderAnswers(f))
      modifies this
      ensures Valid() && history == old(history) + [Event.ProviderAnswers(f)]
      ensures View() == Next(old(View()), Event.ProviderAnswers(f))
    {
      Runs.Extend(PROTOCOL, history, Event.ProviderAnswers(f));
      history := history + [Event.ProviderAnswers(f)];
      flights := flights[f := Shaping];
    }

    method Seal(f: FlightId, response: map<string, Json>)
      requires Valid() && Enabled(View(), Event.Shape(f, response))
      modifies this
      ensures Valid() && history == old(history) + [Event.Shape(f, response)]
      ensures View() == Next(old(View()), Event.Shape(f, response))
    {
      Runs.Extend(PROTOCOL, history, Event.Shape(f, response));
      history := history + [Event.Shape(f, response)];
      var refreshedAt := Seconds(nowMs);
      var expiresAt := refreshedAt + REPLAY_TTL_SECONDS;
      flights := flights[f := Persisting(CachedRefresh(response, refreshedAt, expiresAt))];
    }

    /** The transaction: the entry and its alarm together. An entry that is replaced has expired. */
    method Persist(f: FlightId)
      requires Valid() && Enabled(View(), Event.Commit(f))
      modifies this
      ensures Valid() && history == old(history) + [Event.Commit(f)]
      ensures View() == Next(old(View()), Event.Commit(f))
      ensures old(stored).Some? ==> old(stored).value.expiresAt <= Seconds(nowMs)
      ensures stored.Some? && alarmAtMs == Some(stored.value.expiresAt * 1000)
    {
      UnfinishedMeansAllExpired(history, f);
      RunKeepsInvariant(history);
      Runs.Extend(PROTOCOL, history, Event.Commit(f));
      history := history + [Event.Commit(f)];
      var cached := flights[f].entry;
      stored := Some(cached);
      alarmAtMs := Some(cached.expiresAt * 1000);
      flights := flights[f := Succeeded(cached)];
    }

    method Reject(f: FlightId, error: HttpError)
      requires Valid() && Enabled(View(), Event.Fail(f, error))
      modifies this
      ensures Valid() && history == old(history) + [Event.Fail(f, error)]
      ensures View() == Next(old(View()), Event.Fail(f, error))
    {
      Runs.Extend(PROTOCOL, history, Event.Fail(f, error));
      history := history + [Event.Fail(f, error)];
      flights := flights[f := Failed(error)];
    }

    /** The `finally` handler. It leaves no refresh unfinished. */
    method ClearInFlight(f: FlightId)
      requires Valid() && Enabled(View(), Event.Settle(f))
      modifies this
      ensures Valid() && history == old(history) + [Event.Settle(f)]
      ensures View() == Next(old(View()), Event.Settle(f))
      ensures forall g :: 0 <= g < |flights| ==> flights[g].Done()
    {
      RunKeepsInvariant(history);
      Runs.Extend(PROTOCOL, history, Event.Settle(f));
      history := history + [Event.Settle(f)];
      inFlight := None;
    }

    method ContinueAfterRefresh(r: RequestId)
      requires Valid() && Enabled(View(), Event.Resume(r))
      modifies this
      ensures Valid() && history == old(history) + [Event.Resume(r)]
      ensures View() == Next(old(View()), Event.Resume(r))
    {
      Runs.Extend(PROTOCOL, history, Event.Resume(r));
      history := history + [Event.Resume(r)];
      var flight := flights[requests[r].flight];
      if flight.Succeeded? {
        requests := requests[r := Replaying(flight.entry)];
      } else {
        AnswerError(r, flight.error);
      }
    }

    /** `replayResponse`: the stored response with what is left of its lifetime. */
    method ReplayResponse(cached: CachedRefresh) returns (response: map<string, Json>)
      ensures response == Replay(cached, Seconds(nowMs))
    {
      response := cached.response;
      if "expires_in" in response && response["expires_in"].Number? {
        var expiresIn := response["expires_in"].n;
        var elapsed := Max(0, Seconds(nowMs) - cached.refreshedAt);
        response := response["expires_in" := Number(Max(0, expiresIn - elapsed))];
      }
    }

    /** The reply is the replay of an entry stored before. */
    method Respond(r: RequestId)
      requires Valid() && Enabled(View(), Event.SendReply(r))
      modifies this
      ensures Valid() && history == old(history) + [Event.SendReply(r)]
      ensures View() == Next(old(View()), Event.SendReply(r))
      ensures exists entry :: entry in Committed(old(history)) && requests[r] == Answered(Success(Replay(entry, Seconds(nowMs))))
    {
      ReplayedIsCommitted(history, r);
      Runs.Extend(PROTOCOL, history, Event.SendReply(r));
      history := history + [Event.SendReply(r)];
      var body := ReplayResponse(requests[r].entry);
      requests := requests[r := Answered(Success(body))];
    }

    method FailReply(r: RequestId, error: HttpError)
      requires Valid() && Enabled(View(), Event.ReplyFails(r, error))
      modifies this
      ensures Valid() && history == old(history) + [Event.ReplyFails(r, error)]
      ensures View() == Next(old(View()), Event.ReplyFails(r, error))
    {
      Runs.Extend(PROTOCOL, history, Event.ReplyFails(r, error));
      history := history + [Event.ReplyFails(r, error)];
      AnswerError(r, error);
    }

    /** The alarm handler, fired by the platform at or after the time set. What it deletes has expired. */
    method FireAlarm()
      requires Valid() && Enabled(View(), Event.Alarm)
      modifies this
      ensures Valid() && history == old(history) + [Event.Alarm]
      ensures View() == Next(old(View()), Event.Alarm)
      ensures old(stored).Some? ==> old(stored).value.expiresAt <= Seconds(nowMs)
    {
      RunKeepsInvariant(history);
      Runs.Extend(PROTOCOL, history, Event.Alarm);
      history := history + [Event.Alarm];
      alarmAtMs := None;
      stored := None;
    }
  }
}
