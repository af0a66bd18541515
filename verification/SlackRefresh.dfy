/** The coordinator of one Slack refresh handle: a cache of the last successful refresh, one refresh in
    flight at a time, and replay of the cached response. Any number of requests interleave; a step is
    what runs between two awaits. */
module SlackRefresh {
  import Runs
  import opened Wrappers

  const REPLAY_TTL_SECONDS := 10 * 60

  type RequestId = nat
  type FlightId = nat

  datatype Json = Number(n: int) | Other(text: string)

  datatype CachedRefresh = CachedRefresh(response: map<string, Json>, refreshedAt: int, expiresAt: int)

  datatype HttpError = HttpError(status: nat, code: string)

  /** What arrives with a request, as far as it decides the way the request takes. */
  datatype Incoming = WrongMethod | UnreadableBody | MissingHandle | WithHandle

  /** Where a call of `refreshAndPersist` stands. */
  datatype Flight =
    | Resolving
    | Calling                          // Slack has been asked
    | Shaping                          // Slack has answered
    | Persisting(entry: CachedRefresh) // sealed, to be stored
    | Succeeded(entry: CachedRefresh)
    | Failed(error: HttpError)
  {
    predicate Done() { Succeeded? || Failed? }
  }

  datatype Reply = Success(body: map<string, Json>) | Failure(error: HttpError)

  /** Where a request stands in `fetch`. */
  datatype Request =
    | ReadingCache
    | Waiting(flight: FlightId)
    | Replaying(entry: CachedRefresh)
    | Answered(reply: Reply)

  datatype State = State(
    nowMs: nat,
    stored: Option<CachedRefresh>,
    alarmAtMs: Option<int>,
    inFlight: Option<FlightId>,
    flights: seq<Flight>,              // every refresh ever started, in order
    requests: map<RequestId, Request>
  )

  datatype Event =
    | Tick(nowMs: nat)
    | Arrive(request: RequestId, incoming: Incoming)
    | ReadCache(request: RequestId)                    // the storage read and what follows it
    | ReadFails(request: RequestId, error: HttpError)
    | CallProvider(flight: FlightId)                   // the refresh token is resolved, Slack is asked
    | ProviderAnswers(flight: FlightId)
    | Shape(flight: FlightId, response: map<string, Json>)
    | Commit(flight: FlightId)                         // the storage transaction
    | Fail(flight: FlightId, error: HttpError)         // whatever the refresh awaits rejects
    | Settle(flight: FlightId)                         // the `finally` handler
    | Resume(request: RequestId)                       // a waiter continues
    | SendReply(request: RequestId)
    | ReplyFails(request: RequestId, error: HttpError)
    | Alarm

  const INITIAL := State(0, None, None, None, [], map[])

  function Seconds(ms: nat): nat {
    ms / 1000
  }

  function Max(a: int, b: int): int {
    if a < b then b else a
  }

  /** `replayResponse`. */
  function Replay(cached: CachedRefresh, now: int): map<string, Json> {
    if "expires_in" in cached.response && cached.response["expires_in"].Number? then
      var elapsed := Max(0, now - cached.refreshedAt);
      cached.response["expires_in" := Number(Max(0, cached.response["expires_in"].n - elapsed))]
    else cached.response
  }

  predicate IsFresh(cached: Option<CachedRefresh>, now: int) {
    cached.Some? && now < cached.value.expiresAt
  }

  function Admit(incoming: Incoming): Request {
    match incoming
    case WrongMethod => Answered(Failure(HttpError(405, "method_not_allowed")))
    case UnreadableBody => Answered(Failure(HttpError(500, "internal_error")))
    case MissingHandle => Answered(Failure(HttpError(400, "missing_refresh_handle")))
    case WithHandle => ReadingCache
  }

  predicate HasRequest(s: State, r: RequestId) {
    r in s.requests
  }

  predicate InPhase(s: State, f: FlightId, phase: Flight) {
    f < |s.flights| && s.flights[f] == phase
  }

  predicate Enabled(s: State, e: Event) {
    match e
    case Tick(ms) => s.nowMs <= ms
    case Arrive(r, _) => !HasRequest(s, r)
    case ReadCache(r) => HasRequest(s, r) && s.requests[r].ReadingCache?
    case ReadFails(r, _) => HasRequest(s, r) && s.requests[r].ReadingCache?
    case CallProvider(f) => f < |s.flights| && s.flights[f].Resolving?
    case ProviderAnswers(f) => f < |s.flights| && s.flights[f].Calling?
    case Shape(f, _) => f < |s.flights| && s.flights[f].Shaping?
    case Commit(f) => f < |s.flights| && s.flights[f].Persisting?
    case Fail(f, _) => f < |s.flights| && !s.flights[f].Done()
    case Settle(f) => s.inFlight == Some(f) && f < |s.flights| && s.flights[f].Done()
    case Resume(r) =>
      HasRequest(s, r) && s.requests[r].Waiting? && s.inFlight != Some(s.requests[r].flight)
      && s.requests[r].flight < |s.flights| && s.flights[s.requests[r].flight].Done()
    case SendReply(r) => HasRequest(s, r) && s.requests[r].Replaying?
    case ReplyFails(r, _) => HasRequest(s, r) && s.requests[r].Replaying?
    case Alarm => s.alarmAtMs.Some? && s.alarmAtMs.value <= s.nowMs
  }

  /** One step. A step that is not enabled changes nothing. */
  function Next(s: State, e: Event): State {
    if !Enabled(s, e) then s else
    match e
    case Tick(ms) => s.(nowMs := ms)
    case Arrive(r, incoming) => s.(requests := s.requests[r := Admit(incoming)])
    case ReadCache(r) =>
      if IsFresh(s.stored, Seconds(s.nowMs)) then s.(requests := s.requests[r := Replaying(s.stored.value)])
      else if s.inFlight.Some? then s.(requests := s.requests[r := Waiting(s.inFlight.value)])
      else s.(inFlight := Some(|s.flights|), flights := s.flights + [Resolving],
              requests := s.requests[r := Waiting(|s.flights|)])
    case ReadFails(r, error) => s.(requests := s.requests[r := Answered(Failure(error))])
    case CallProvider(f) => s.(flights := s.flights[f := Calling])
    case ProviderAnswers(f) => s.(flights := s.flights[f := Shaping])
    case Shape(f, response) =>
      var now := Seconds(s.nowMs);
      s.(flights := s.flights[f := Persisting(CachedRefresh(response, now, now + REPLAY_TTL_SECONDS))])
    case Commit(f) =>
      var entry := s.flights[f].entry;
      s.(stored := Some(entry), alarmAtMs := Some(entry.expiresAt * 1000), flights := s.flights[f := Succeeded(entry)])
    case Fail(f, error) => s.(flights := s.flights[f := Failed(error)])
    case Settle(f) => s.(inFlight := None)
    case Resume(r) =>
      var flight := s.flights[s.requests[r].flight];
      s.(requests := s.requests[r := if flight.Succeeded? then Replaying(flight.entry) else Answered(Failure(flight.error))])
    case SendReply(r) => s.(requests := s.requests[r := Answered(Success(Replay(s.requests[r].entry, Seconds(s.nowMs))))])
    case ReplyFails(r, error) => s.(requests := s.requests[r := Answered(Failure(error))])
    case Alarm => s.(stored := None, alarmAtMs := None)
  }

  // ---------------------------------------------------------------- runs

  const PROTOCOL := Runs.Protocol(INITIAL, Enabled, Next)

  function Run(events: seq<Event>): State {
    Runs.Run(PROTOCOL, events)
  }

  predicate Legal(events: seq<Event>) {
    Runs.Legal(PROTOCOL, events)
  }

  /** The state before step i. */
  function At(events: seq<Event>, i: nat): State
    requires i <= |events|
  {
    Runs.At(PROTOCOL, events, i)
  }

  /** Step i stores the entry. */
  predicate CommitsAt(events: seq<Event>, i: nat, entry: CachedRefresh) {
    i < |events| && events[i].Commit? && InPhase(At(events, i), events[i].flight, Persisting(entry))
  }

  /** The entries stored so far. */
  ghost function Committed(events: seq<Event>): set<CachedRefresh> {
    if events == [] then {}
    else
      var before := events[..|events| - 1];
      Committed(before) + CommittedBy(Run(before), events[|events| - 1])
  }

  function CommittedBy(s: State, e: Event): set<CachedRefresh> {
    if e.Commit? && e.flight < |s.flights| && s.flights[e.flight].Persisting? then {s.flights[e.flight].entry} else {}
  }

  lemma {:induction false} CommittedMeansCommitsAt(events: seq<Event>, entry: CachedRefresh)
    ensures entry in Committed(events) <==> exists i: nat :: CommitsAt(events, i, entry)
    decreases |events|
  {
    if events != [] {
      var n := |events| - 1;
      var before := events[..n];
      CommittedMeansCommitsAt(before, entry);
      assert forall i: nat :: i <= n ==> before[..i] == events[..i];
      assert forall i: nat :: i < n ==> (CommitsAt(before, i, entry) <==> CommitsAt(events, i, entry));
      if entry in Committed(before) {
        var i: nat :| CommitsAt(before, i, entry);
        assert CommitsAt(events, i, entry);
      } else if entry in Committed(events) {
        assert CommitsAt(events, n, entry);
      }
    }
  }

  // ---------------------------------------------------------------- the invariant

  /** A stored entry always has its alarm set at exactly its own expiry. */
  predicate AlarmMatchesEntry(s: State) {
    s.alarmAtMs == if s.stored.Some? then Some(s.stored.value.expiresAt * 1000) else None
  }

  /** Only the flight in `inFlight` is unfinished. */
  ghost predicate OneFlight(s: State) {
    && (s.inFlight.Some? ==> s.inFlight.value < |s.flights|)
    && (forall f :: 0 <= f < |s.flights| && !s.flights[f].Done() ==> s.inFlight == Some(f))
    && (forall r :: r in s.requests && s.requests[r].Waiting? ==> s.requests[r].flight < |s.flights|)
  }

  ghost predicate AllExpired(s: State, committed: set<CachedRefresh>) {
    forall c :: c in committed ==> c.expiresAt <= Seconds(s.nowMs)
  }

  /** Every entry ever stored is the one stored now or has expired, and while a refresh is under way
      all have expired; entries held anywhere have been stored. */
  ghost predicate EntriesInv(s: State, committed: set<CachedRefresh>) {
    && (forall c :: c in committed ==> s.stored == Some(c) || c.expiresAt <= Seconds(s.nowMs))
    && (s.inFlight.Some? && s.inFlight.value < |s.flights| && !s.flights[s.inFlight.value].Succeeded?
        ==> AllExpired(s, committed))
    && (s.stored.Some? ==> s.stored.value in committed)
    && (forall f :: 0 <= f < |s.flights| && s.flights[f].Succeeded? ==> s.flights[f].entry in committed)
    && (forall r :: r in s.requests && s.requests[r].Replaying? ==> s.requests[r].entry in committed)
  }

  ghost predicate Inv(s: State, committed: set<CachedRefresh>) {
    AlarmMatchesEntry(s) && OneFlight(s) && EntriesInv(s, committed)
  }

  lemma OneFlightStep(s: State, e: Event)
    requires OneFlight(s) && Enabled(s, e)
    ensures OneFlight(Next(s, e))
  {
  }

  lemma CommitStep(s: State, committed: set<CachedRefresh>, f: FlightId)
    requires Inv(s, committed) && Enabled(s, Commit(f))
    ensures EntriesInv(Next(s, Commit(f)), committed + {s.flights[f].entry})
  {
    assert !s.flights[f].Done() && s.inFlight == Some(f);
    assert AllExpired(s, committed);
  }

  lemma EntriesStep(s: State, committed: set<CachedRefresh>, e: Event)
    requires Inv(s, committed) && Enabled(s, e)
    ensures EntriesInv(Next(s, e), committed + CommittedBy(s, e))
  {
    if e.Commit? {
      CommitStep(s, committed, e.flight);
    } else {
      assert committed + CommittedBy(s, e) == committed;
      if e.ReadCache? {
        ReadCacheStep(s, committed, e.request);
      } else if e.Resume? {
        ResumeStep(s, committed, e.request);
      } else {
        OtherStep(s, committed, e);
      }
    }
  }

  lemma ReadCacheStep(s: State, committed: set<CachedRefresh>, r: RequestId)
    requires Inv(s, committed) && Enabled(s, ReadCache(r))
    ensures EntriesInv(Next(s, ReadCache(r)), committed)
  {
  }

  lemma ResumeStep(s: State, committed: set<CachedRefresh>, r: RequestId)
    requires Inv(s, committed) && Enabled(s, Resume(r))
    ensures EntriesInv(Next(s, Resume(r)), committed)
  {
  }

  lemma OtherStep(s: State, committed: set<CachedRefresh>, e: Event)
    requires Inv(s, committed) && Enabled(s, e) && !e.Commit? && !e.ReadCache? && !e.Resume?
    ensures EntriesInv(Next(s, e), committed)
  {
  }

  lemma {:induction false} RunKeepsInvariant(events: seq<Event>)
    requires Legal(events)
    ensures Inv(Run(events), Committed(events))
  {
    if events != [] {
      var n := |events| - 1;
      RunKeepsInvariant(events[..n]);
      OneFlightStep(Run(events[..n]), events[n]);
      EntriesStep(Run(events[..n]), Committed(events[..n]), events[n]);
    }
  }

  // ---------------------------------------------------------------- one provider call at a time

  /** At most one refresh is asking Slack, and it is the one that later requests join. */
  lemma AtMostOneProviderCall(events: seq<Event>, f: FlightId, g: FlightId)
    requires Legal(events)
    requires InPhase(Run(events), f, Calling) && InPhase(Run(events), g, Calling)
    ensures f == g && Run(events).inFlight == Some(f)
  {
    RunKeepsInvariant(events);
  }

  /** Step j asks Slack, or starts a refresh that will. */
  predicate StartsProviderRefresh(events: seq<Event>, j: nat) {
    j < |events| && (events[j].CallProvider? || |Next(At(events, j), events[j]).flights| > |At(events, j).flights|)
  }

  /** Once an entry is stored, no refresh starts and Slack is not asked again before the entry expires. */
  lemma NoProviderRefreshWhileEntryLives(events: seq<Event>, i: nat, j: nat, entry: CachedRefresh)
    requires Legal(events) && CommitsAt(events, i, entry) && i < j && StartsProviderRefresh(events, j)
    ensures entry.expiresAt <= Seconds(At(events, j).nowMs)
  {
    Runs.LegalPrefix(PROTOCOL, events, j);
    RunKeepsInvariant(events[..j]);
    assert events[..j][..i] == events[..i];
    assert CommitsAt(events[..j], i, entry);
    CommittedMeansCommitsAt(events[..j], entry);
  }

  /** The same, seen from the state: while a refresh is unfinished, and when one starts, all entries
      ever stored have expired. */
  lemma UnfinishedMeansAllExpired(events: seq<Event>, f: FlightId)
    requires Legal(events) && f < |Run(events).flights| && !Run(events).flights[f].Done()
    ensures AllExpired(Run(events), Committed(events)) && Run(events).inFlight == Some(f)
  {
    RunKeepsInvariant(events);
  }

  lemma StartMeansAllExpired(events: seq<Event>, r: RequestId)
    requires Legal(events) && Enabled(Run(events), ReadCache(r))
    requires |Next(Run(events), ReadCache(r)).flights| > |Run(events).flights|
    ensures AllExpired(Run(events), Committed(events))
  {
    RunKeepsInvariant(events);
  }

  // ---------------------------------------------------------------- the alarm

  /** The alarm never deletes an entry that has not expired, not even after that entry replaced an
      older one; and after each step the alarm of the stored entry is set at that entry's expiry. */
  lemma AlarmDeletesOnlyExpired(events: seq<Event>, j: nat)
    requires Legal(events) && j < |events| && events[j].Alarm?
    ensures At(events, j).stored.Some? ==> At(events, j).stored.value.expiresAt <= Seconds(At(events, j).nowMs)
    ensures AlarmMatchesEntry(Run(events))
  {
    RunKeepsInvariant(events);
    Runs.LegalPrefix(PROTOCOL, events, j);
    RunKeepsInvariant(events[..j]);
  }

  // ---------------------------------------------------------------- replies

  /** Every successful reply is the replay of an entry that was stored earlier in the run, as of the
      moment the reply was made. */
  lemma {:induction false} SuccessReplaysStoredEntry(events: seq<Event>, r: RequestId, body: map<string, Json>)
      returns (i: nat, j: nat, entry: CachedRefresh)
    requires Legal(events) && HasRequest(Run(events), r) && Run(events).requests[r] == Answered(Success(body))
    ensures i < j < |events| && CommitsAt(events, i, entry) && events[j] == SendReply(r)
    ensures body == Replay(entry, Seconds(At(events, j).nowMs))
    decreases |events|
  {
    var n := |events| - 1;
    var before := events[..n];
    var s := Run(before);
    if HasRequest(s, r) && s.requests[r] == Answered(Success(body)) {
      i, j, entry := SuccessReplaysStoredEntry(before, r, body);
      assert before[..i] == events[..i] && before[..j] == events[..j];
    } else {
      j := n;
      assert events[n] == SendReply(r) && s.requests[r].Replaying?;
      entry := s.requests[r].entry;
      RunKeepsInvariant(before);
      CommittedMeansCommitsAt(before, entry);
      i :| CommitsAt(before, i, entry);
      assert before[..i] == events[..i];
    }
  }

  /** Replies from one entry agree in everything but `expires_in`, which never rises as the clock
      advances. */
  lemma RepliesFromOneEntryAgree(entry: CachedRefresh, now: int, later: int)
    requires now <= later
    ensures Replay(entry, now).Keys == Replay(entry, later).Keys == entry.response.Keys
    ensures forall key :: key in entry.response && key != "expires_in" ==>
              Replay(entry, now)[key] == Replay(entry, later)[key] == entry.response[key]
    ensures "expires_in" in entry.response && entry.response["expires_in"].Number? ==>
              && Replay(entry, now)["expires_in"].Number? && Replay(entry, later)["expires_in"].Number?
              && 0 <= Replay(entry, later)["expires_in"].n <= Replay(entry, now)["expires_in"].n
    ensures "expires_in" in entry.response && !entry.response["expires_in"].Number? ==>
              Replay(entry, now) == Replay(entry, later) == entry.response
  {
  }

  /** Whatever the clock does, also when it steps back before the refresh: a reply never promises a
      lifetime beyond the one Slack gave, and it promises exactly that one while it lasts. */
  lemma ReplyNeverOutlivesToken(entry: CachedRefresh, now: int)
    requires "expires_in" in entry.response && entry.response["expires_in"].Number?
    ensures var end := entry.refreshedAt + entry.response["expires_in"].n;
            var promised := now + Replay(entry, now)["expires_in"].n;
            && promised <= Max(now, end)
            && (entry.refreshedAt <= now ==> promised == Max(now, end))
  {
  }

  /** What is about to be replayed has been stored. */
  lemma ReplayedIsCommitted(events: seq<Event>, r: RequestId)
    requires Legal(events) && HasRequest(Run(events), r) && Run(events).requests[r].Replaying?
    ensures Run(events).requests[r].entry in Committed(events)
  {
    RunKeepsInvariant(events);
  }

  lemma {:induction false} ClockAdvances(events: seq<Event>, i: nat)
    requires Legal(events) && i <= |events|
    ensures At(events, i).nowMs <= Run(events).nowMs
    decreases |events|
  {
    var n := |events|;
    if i == n {
      assert events[..n] == events;
    } else {
      assert events[..n - 1][..i] == events[..i];
      ClockAdvances(events[..n - 1], i);
    }
  }

  /** Step j answers the request with a replay of the entry. */
  predicate RepliesAt(events: seq<Event>, j: nat, r: RequestId, entry: CachedRefresh) {
    && j < |events| && events[j] == SendReply(r)
    && HasRequest(At(events, j), r) && At(events, j).requests[r] == Replaying(entry)
  }

  /** In any run, two successful replies served from one entry, to any two requests: the later one has
      the same fields with the same values, but for an `expires_in` that is no greater. */
  lemma LaterReplyPromisesNoMore(events: seq<Event>, j: nat, k: nat, r: RequestId, q: RequestId, entry: CachedRefresh)
      returns (earlier: map<string, Json>, later: map<string, Json>)
    requires Legal(events) && j <= k && RepliesAt(events, j, r, entry) && RepliesAt(events, k, q, entry)
    ensures HasRequest(At(events, j + 1), r) && At(events, j + 1).requests[r] == Answered(Success(earlier))
    ensures HasRequest(At(events, k + 1), q) && At(events, k + 1).requests[q] == Answered(Success(later))
    ensures earlier.Keys == later.Keys
    ensures forall key :: key in earlier && key != "expires_in" ==> earlier[key] == later[key]
    ensures "expires_in" in earlier && earlier["expires_in"].Number? ==>
              later["expires_in"].Number? && 0 <= later["expires_in"].n <= earlier["expires_in"].n
    ensures "expires_in" in earlier && !earlier["expires_in"].Number? ==> earlier == later
  {
    Runs.LegalPrefix(PROTOCOL, events, j);
    Runs.LegalPrefix(PROTOCOL, events, k);
    assert events[..k][..j] == events[..j];
    ClockAdvances(events[..k], j);
    earlier := Replay(entry, Seconds(At(events, j).nowMs));
    later := Replay(entry, Seconds(At(events, k).nowMs));
    RepliesFromOneEntryAgree(entry, Seconds(At(events, j).nowMs), Seconds(At(events, k).nowMs));
  }

  // ---------------------------------------------------------------- what a reply says

  /** Step h shapes the response of refresh f, at that many seconds. */
  predicate ShapesAt(events: seq<Event>, h: nat, f: FlightId, response: map<string, Json>, seconds: nat) {
    h < |events| && events[h] == Shape(f, response) && At(events, h).nowMs / 1000 == seconds
  }

  lemma ShapesInPrefix(events: seq<Event>, n: nat, h: nat, f: FlightId, response: map<string, Json>, seconds: nat)
    requires n <= |events| && ShapesAt(events[..n], h, f, response, seconds)
    ensures ShapesAt(events, h, f, response, seconds)
  {
    assert events[..n][..h] == events[..h];
  }

  lemma PersistingStep(s: State, e: Event, f: FlightId, entry: CachedRefresh)
    requires Enabled(s, e) && InPhase(Next(s, e), f, Persisting(entry))
    ensures InPhase(s, f, Persisting(entry))
         || (e == Shape(f, entry.response) && entry.refreshedAt == s.nowMs / 1000 && entry.expiresAt == s.nowMs / 1000 + 600)
  {
  }

  /** An entry that waits to be stored is the response its refresh was given, with the time it was given. */
  lemma {:induction false} PersistingWasShaped(events: seq<Event>, f: FlightId, entry: CachedRefresh) returns (h: nat)
    requires Legal(events) && InPhase(Run(events), f, Persisting(entry))
    ensures h < |events| && entry.refreshedAt == At(events, h).nowMs / 1000
    ensures ShapesAt(events, h, f, entry.response, At(events, h).nowMs / 1000)
    ensures entry.expiresAt == At(events, h).nowMs / 1000 + 600
    decreases |events|
  {
    var n := |events| - 1;
    PersistingStep(Run(events[..n]), events[n], f, entry);
    if InPhase(Run(events[..n]), f, Persisting(entry)) {
      h := PersistingWasShaped(events[..n], f, entry);
      ShapesInPrefix(events, n, h, f, entry.response, At(events[..n], h).nowMs / 1000);
      assert events[..n][..h] == events[..h];
    } else {
      h := n;
    }
  }

  /** What a commit stores: the response that was shaped in an earlier step of the same refresh, to expire
      600 seconds after that step, and an alarm at that moment. */
  lemma CommitStoresResponse(events: seq<Event>, i: nat)
      returns (h: nat, response: map<string, Json>)
    requires Legal(events) && i < |events| && events[i].Commit?
    ensures h < i && events[h] == Shape(events[i].flight, response)
    ensures At(events, i + 1).stored == Some(CachedRefresh(response, At(events, h).nowMs / 1000, At(events, h).nowMs / 1000 + 600))
    ensures At(events, i + 1).alarmAtMs == Some((At(events, h).nowMs / 1000 + 600) * 1000)
  {
    Runs.LegalPrefix(PROTOCOL, events, i);
    var f := events[i].flight;
    var entry := At(events, i).flights[f].entry;
    h := PersistingWasShaped(events[..i], f, entry);
    response := entry.response;
    assert events[..i][..h] == events[..h];
  }

  /** Step i is the last that touches the storage, and it is a commit. */
  ghost predicate LastStoreAt(events: seq<Event>, i: nat) {
    i < |events| && events[i].Commit? && forall k: nat :: i < k < |events| ==> !events[k].Commit? && !events[k].Alarm?
  }

  lemma LastStoreStep(events: seq<Event>, i: nat)
    requires i < |events| - 1
    ensures LastStoreAt(events, i) <==>
            LastStoreAt(events[..|events| - 1], i) && !events[|events| - 1].Commit? && !events[|events| - 1].Alarm?
  {
    var before := events[..|events| - 1];
    assert forall k: nat :: k < |before| ==> before[k] == events[k];
  }

  lemma StorageStep(s: State, e: Event)
    requires Enabled(s, e) && !e.Commit?
    ensures Next(s, e).stored == if e.Alarm? then None else s.stored
    ensures Next(s, e).alarmAtMs == if e.Alarm? then None else s.alarmAtMs
  {
  }

  /** In every run, an entry is stored exactly if no alarm has fired since the last commit, if there was one,
      and then it is the entry of that commit; so is the alarm. No other step touches either. */
  lemma {:induction false} StoredIsLastCommitted(events: seq<Event>, i: nat)
    requires Legal(events)
    ensures Run(events).stored.Some? ==> exists k: nat :: LastStoreAt(events, k)
    ensures LastStoreAt(events, i) ==>
              Run(events).stored == At(events, i + 1).stored && Run(events).alarmAtMs == At(events, i + 1).alarmAtMs
    decreases |events|
  {
    if events != [] {
      var n := |events| - 1;
      StoredIsLastCommitted(events[..n], i);
      if events[n].Commit? {
        assert LastStoreAt(events, n);
        assert events[..n + 1] == events;
      } else {
        StorageStep(Run(events[..n]), events[n]);
        if Run(events).stored.Some? {
          var k: nat :| LastStoreAt(events[..n], k);
          LastStoreStep(events, k);
        }
        if LastStoreAt(events, i) {
          LastStoreStep(events, i);
          assert events[..n][..i + 1] == events[..i + 1];
        }
      }
    }
  }

  /** The lifetime that is left of `n` seconds, `elapsed` seconds later. */
  function Left(n: int, elapsed: int): int {
    var gone := if elapsed < 0 then 0 else elapsed;
    if n - gone < 0 then 0 else n - gone
  }

  /** The same of a value of `expires_in`, which need not be a number. */
  function LeftOf(value: Json, elapsed: int): Json {
    match value
    case Number(n) => Number(Left(n, elapsed))
    case Other(text) => Other(text)
  }

  lemma ReplayOfResponse(entry: CachedRefresh, now: int)
    ensures var body := Replay(entry, now);
            && body.Keys == entry.response.Keys
            && (forall key :: key in body && key != "expires_in" ==> body[key] == entry.response[key])
            && ("expires_in" in body ==> body["expires_in"] == LeftOf(entry.response["expires_in"], now - entry.refreshedAt))
  {
  }

  /** In every run, a successful reply, at step j, is what Slack's answer was shaped to at an earlier step h,
      stored in between by the commit of the same refresh: it has exactly the fields of that response with
      exactly their values, but for a numeric `expires_in`, which is what is left of it after the time
      between the two steps. */
  lemma ReplyCarriesResponse(events: seq<Event>, r: RequestId, body: map<string, Json>)
      returns (h: nat, i: nat, j: nat, f: FlightId, response: map<string, Json>)
    requires Legal(events) && HasRequest(Run(events), r) && Run(events).requests[r] == Answered(Success(body))
    ensures h < i < j < |events|
    ensures events[h] == Shape(f, response) && events[i] == Commit(f) && events[j] == SendReply(r)
    ensures body.Keys == response.Keys
    ensures forall key :: key in body && key != "expires_in" ==> body[key] == response[key]
    ensures "expires_in" in body ==>
              body["expires_in"] == LeftOf(response["expires_in"], At(events, j).nowMs / 1000 - At(events, h).nowMs / 1000)
  {
    var entry;
    i, j, entry := SuccessReplaysStoredEntry(events, r, body);
    f := events[i].flight;
    Runs.LegalPrefix(PROTOCOL, events, i);
    h := PersistingWasShaped(events[..i], f, entry);
    response := entry.response;
    assert events[..i][..h] == events[..h];
    ReplayOfResponse(entry, At(events, j).nowMs / 1000);
  }

  /** Step k reads the cache for the request and finds the entry, before its expiry. */
  predicate ReadsFresh(events: seq<Event>, k: nat, r: RequestId, entry: CachedRefresh) {
    k < |events| && events[k] == ReadCache(r) && At(events, k).stored == Some(entry)
    && At(events, k).nowMs / 1000 < entry.expiresAt
  }

  /** The request has waited for refresh f, which stored the entry at step i. */
  predicate AwaitedCommit(events: seq<Event>, k: nat, i: nat, r: RequestId, entry: CachedRefresh) {
    && k < |events| && i < |events| && events[k] == Resume(r) && events[i].Commit?
    && HasRequest(At(events, k), r) && At(events, k).requests[r] == Waiting(events[i].flight)
    && CommitsAt(events, i, entry)
  }

  lemma ReplayingStep(s: State, e: Event, r: RequestId, entry: CachedRefresh)
    requires Enabled(s, e) && HasRequest(Next(s, e), r) && Next(s, e).requests[r] == Replaying(entry)
    ensures (HasRequest(s, r) && s.requests[r] == Replaying(entry))
         || (e == ReadCache(r) && s.stored == Some(entry) && s.nowMs / 1000 < entry.expiresAt)
         || (e == Resume(r) && HasRequest(s, r) && s.requests[r].Waiting? && InPhase(s, s.requests[r].flight, Succeeded(entry)))
  {
  }

  lemma SucceededStep(s: State, e: Event, f: FlightId, entry: CachedRefresh)
    requires Enabled(s, e) && InPhase(Next(s, e), f, Succeeded(entry))
    ensures InPhase(s, f, Succeeded(entry)) || (e == Commit(f) && InPhase(s, f, Persisting(entry)))
  {
  }

  lemma {:induction false} SucceededWasCommitted(events: seq<Event>, f: FlightId, entry: CachedRefresh) returns (i: nat)
    requires Legal(events) && InPhase(Run(events), f, Succeeded(entry))
    ensures CommitsAt(events, i, entry) && events[i] == Commit(f)
    decreases |events|
  {
    var n := |events| - 1;
    SucceededStep(Run(events[..n]), events[n], f, entry);
    if InPhase(Run(events[..n]), f, Succeeded(entry)) {
      i := SucceededWasCommitted(events[..n], f, entry);
      assert events[..n][..i] == events[..i];
    } else {
      i := n;
    }
  }

  /** Whatever is about to be replayed was read from the cache before its expiry, or was stored by the very
      refresh that the request waited for. */
  lemma {:induction false} ReplayedIsFreshOrAwaited(events: seq<Event>, r: RequestId, entry: CachedRefresh)
    requires Legal(events) && HasRequest(Run(events), r) && Run(events).requests[r] == Replaying(entry)
    ensures (exists k: nat :: ReadsFresh(events, k, r, entry))
         || (exists k: nat, i: nat :: AwaitedCommit(events, k, i, r, entry))
    decreases |events|
  {
    var n := |events| - 1;
    var before := events[..n];
    ReplayingStep(Run(before), events[n], r, entry);
    if HasRequest(Run(before), r) && Run(before).requests[r] == Replaying(entry) {
      ReplayedIsFreshOrAwaited(before, r, entry);
      if k: nat :| ReadsFresh(before, k, r, entry) {
        assert before[..k] == events[..k];
        assert ReadsFresh(events, k, r, entry);
      } else {
        var k: nat, i: nat :| AwaitedCommit(before, k, i, r, entry);
        assert before[..k] == events[..k] && before[..i] == events[..i];
        assert AwaitedCommit(events, k, i, r, entry);
      }
    } else if events[n] == ReadCache(r) {
      assert ReadsFresh(events, n, r, entry);
    } else {
      var i := SucceededWasCommitted(before, Run(before).requests[r].flight, entry);
      assert before[..i] == events[..i];
      assert AwaitedCommit(events, n, i, r, entry);
    }
  }

  // ---------------------------------------------------------------- refused requests

  /** What a request is told that is refused on arrival. */
  function Refusal(incoming: Incoming): Option<HttpError> {
    match incoming
    case WrongMethod => Some(HttpError(405, "method_not_allowed"))
    case UnreadableBody => Some(HttpError(500, "internal_error"))
    case MissingHandle => Some(HttpError(400, "missing_refresh_handle"))
    case WithHandle => None
  }

  lemma AnswerStays(s: State, e: Event, r: RequestId)
    requires Enabled(s, e) && HasRequest(s, r) && s.requests[r].Answered?
    ensures HasRequest(Next(s, e), r) && Next(s, e).requests[r] == s.requests[r]
  {
  }

  /** Where a failure that a request is told can come from. */
  ghost predicate IsCause(events: seq<Event>, k: nat, r: RequestId, error: HttpError) {
    && k < |events|
    && match events[k]
       case Arrive(q, incoming) => q == r && Refusal(incoming) == Some(error)
       case ReadFails(q, e) => q == r && e == error
       case ReplyFails(q, e) => q == r && e == error
       case Resume(q) => q == r && HasRequest(At(events, k), r) && At(events, k).requests[r].Waiting?
                         && Fail(At(events, k).requests[r].flight, error) in events[..k]
       case _ => false
  }

  lemma FailureStep(s: State, e: Event, r: RequestId, error: HttpError)
    requires Enabled(s, e) && HasRequest(Next(s, e), r) && Next(s, e).requests[r] == Answered(Failure(error))
    ensures (HasRequest(s, r) && s.requests[r] == Answered(Failure(error)))
         || (e.Arrive? && e.request == r && Refusal(e.incoming) == Some(error))
         || e == ReadFails(r, error) || e == ReplyFails(r, error)
         || (e == Resume(r) && HasRequest(s, r) && s.requests[r].Waiting? && InPhase(s, s.requests[r].flight, Failed(error)))
  {
  }

  lemma FailedStep(s: State, e: Event, f: FlightId, error: HttpError)
    requires Enabled(s, e) && InPhase(Next(s, e), f, Failed(error))
    ensures InPhase(s, f, Failed(error)) || e == Fail(f, error)
  {
  }

  lemma {:induction false} FailedHasFailed(events: seq<Event>, f: FlightId, error: HttpError)
    requires Legal(events) && InPhase(Run(events), f, Failed(error))
    ensures Fail(f, error) in events
    decreases |events|
  {
    var n := |events| - 1;
    FailedStep(Run(events[..n]), events[n], f, error);
    if InPhase(Run(events[..n]), f, Failed(error)) {
      FailedHasFailed(events[..n], f, error);
    }
  }

  /** In every run, whoever is told of a failure is told the right one: of the refusal of the own request, of
      the own read or the own reply, or of the refresh waited for. */
  lemma {:induction false} FailureHasCause(events: seq<Event>, r: RequestId, error: HttpError) returns (k: nat)
    requires Legal(events) && HasRequest(Run(events), r) && Run(events).requests[r] == Answered(Failure(error))
    ensures IsCause(events, k, r, error)
    decreases |events|
  {
    var n := |events| - 1;
    var before := events[..n];
    FailureStep(Run(before), events[n], r, error);
    if HasRequest(Run(before), r) && Run(before).requests[r] == Answered(Failure(error)) {
      k := FailureHasCause(before, r, error);
      assert before[..k] == events[..k];
    } else {
      k := n;
      if events[n] == Resume(r) {
        FailedHasFailed(before, Run(before).requests[r].flight, error);
      }
    }
  }

  /** In every run, a request that is refused on arrival keeps that answer. */
  lemma {:induction false} RefusedOnArrival(events: seq<Event>, k: nat, r: RequestId, incoming: Incoming)
    requires Legal(events) && k < |events| && events[k] == Arrive(r, incoming) && Refusal(incoming).Some?
    ensures HasRequest(Run(events), r) && Run(events).requests[r] == Answered(Failure(Refusal(incoming).value))
    decreases |events|
  {
    var n := |events| - 1;
    if k < n {
      RefusedOnArrival(events[..n], k, r, incoming);
      AnswerStays(Run(events[..n]), events[n], r);
    }
  }

  // ---------------------------------------------------------------- failure

  lemma OutcomeStep(s: State, e: Event, f: FlightId)
    requires f < |s.flights| && s.flights[f].Done()
    ensures f < |Next(s, e).flights| && Next(s, e).flights[f] == s.flights[f]
  {
  }

  /** Both outcomes of a refresh are final. */
  lemma {:induction false} OutcomeIsFinal(events: seq<Event>, i: nat, f: FlightId)
    requires Legal(events) && i <= |events| && f < |At(events, i).flights| && At(events, i).flights[f].Done()
    ensures f < |Run(events).flights| && Run(events).flights[f] == At(events, i).flights[f]
    decreases |events|
  {
    var n := |events|;
    if i == n {
      assert events[..n] == events;
    } else {
      assert events[..n - 1][..i] == events[..i];
      OutcomeIsFinal(events[..n - 1], i, f);
      OutcomeStep(Run(events[..n - 1]), events[n - 1], f);
    }
  }

  /** Still waiting for the refresh, or told that it failed. */
  ghost predicate WaitsOrFailed(s: State, r: RequestId, f: FlightId, error: HttpError) {
    && HasRequest(s, r)
    && (s.requests[r] == Waiting(f) || s.requests[r] == Answered(Failure(error)))
  }

  ghost predicate NoOtherOutcome(s: State, f: FlightId, error: HttpError) {
    f < |s.flights| && (s.flights[f].Done() ==> s.flights[f] == Failed(error))
  }

  lemma WaiterStep(s: State, e: Event, r: RequestId, f: FlightId, error: HttpError)
    requires f < |s.flights| && NoOtherOutcome(Next(s, e), f, error)
    ensures NoOtherOutcome(s, f, error)
    ensures WaitsOrFailed(s, r, f, error) ==> WaitsOrFailed(Next(s, e), r, f, error)
  {
  }

  lemma {:induction false} WaiterSharesFailure(events: seq<Event>, k: nat, r: RequestId, f: FlightId, error: HttpError)
    requires k <= |events| && f < |At(events, k).flights|
    requires WaitsOrFailed(At(events, k), r, f, error)
    requires NoOtherOutcome(Run(events), f, error)
    ensures WaitsOrFailed(Run(events), r, f, error)
    decreases |events|
  {
    var n := |events|;
    if k == n {
      assert events[..n] == events;
    } else {
      var before := events[..n - 1];
      assert before[..k] == events[..k];
      FlightsGrow(before, k);
      WaiterStep(Run(before), events[n - 1], r, f, error);
      WaiterSharesFailure(before, k, r, f, error);
    }
  }

  lemma {:induction false} FlightsGrow(events: seq<Event>, k: nat)
    requires k <= |events|
    ensures |At(events, k).flights| <= |Run(events).flights|
    decreases |events|
  {
    var n := |events|;
    if k == n {
      assert events[..n] == events;
    } else {
      assert events[..n - 1][..k] == events[..k];
      FlightsGrow(events[..n - 1], k);
    }
  }

  lemma FailedAt(events: seq<Event>, i: nat, f: FlightId, error: HttpError)
    requires Legal(events) && i < |events| && events[i] == Fail(f, error)
    ensures f < |Run(events).flights| && Run(events).flights[f] == Failed(error)
    ensures f < |At(events, i).flights| && !At(events, i).flights[f].Done()
  {
    Runs.LegalPrefix(PROTOCOL, events, i);
    OutcomeIsFinal(events, i + 1, f);
  }

  lemma CommittedAt(events: seq<Event>, j: nat, f: FlightId)
    requires Legal(events) && j < |events| && events[j] == Commit(f)
    ensures f < |Run(events).flights| && Run(events).flights[f].Succeeded?
  {
    Runs.LegalPrefix(PROTOCOL, events, j);
    OutcomeIsFinal(events, j + 1, f);
  }

  /** A refresh that fails at step i stores nothing, at any step; and every request that ever waits for
      it, whenever it joined, is answered with that error if it is answered at all. */
  lemma FailureReachesEveryWaiter(events: seq<Event>, i: nat, f: FlightId, error: HttpError)
    requires Legal(events) && i < |events| && events[i] == Fail(f, error)
    ensures Commit(f) !in events
    ensures forall k: nat, r :: k <= |events| && HasRequest(At(events, k), r) && At(events, k).requests[r] == Waiting(f) ==>
              WaitsOrFailed(Run(events), r, f, error)
  {
    FailedAt(events, i, f, error);
    if Commit(f) in events {
      var j :| 0 <= j < |events| && events[j] == Commit(f);
      CommittedAt(events, j, f);
      assert false;
    }
    forall k: nat, r | k <= |events| && HasRequest(At(events, k), r) && At(events, k).requests[r] == Waiting(f)
      ensures WaitsOrFailed(Run(events), r, f, error)
    {
      Runs.LegalPrefix(PROTOCOL, events, k);
      RunKeepsInvariant(events[..k]);
      WaiterSharesFailure(events, k, r, f, error);
    }
  }

  // ---------------------------------------------------------------- nothing gets stuck

  /** What the refresh in flight does next when nothing goes wrong. */
  function Advance(s: State, response: map<string, Json>): Event
    requires s.inFlight.Some? && s.inFlight.value < |s.flights|
  {
    var f := s.inFlight.value;
    match s.flights[f]
    case Resolving => CallProvider(f)
    case Calling => ProviderAnswers(f)
    case Shaping => Shape(f, response)
    case Persisting(_) => Commit(f)
    case Succeeded(_) => Settle(f)
    case Failed(_) => Settle(f)
  }

  ghost function Remaining(s: State): nat {
    if s.inFlight.None? || s.inFlight.value >= |s.flights| then 0 else
    match s.flights[s.inFlight.value]
    case Resolving => 5
    case Calling => 4
    case Shaping => 3
    case Persisting(_) => 2
    case Succeeded(_) => 1
    case Failed(_) => 1
  }

  /** The refreshes of `s` are all there in `t`, and none has failed since. */
  ghost predicate NoneFailedSince(s: State, t: State) {
    |s.flights| == |t.flights| && forall f :: 0 <= f < |s.flights| && !s.flights[f].Failed? ==> !t.flights[f].Failed?
  }

  lemma AdvanceStep(s: State, response: map<string, Json>)
    requires OneFlight(s) && s.inFlight.Some?
    ensures var t := Next(s, Advance(s, response));
            && Enabled(s, Advance(s, response))
            && Remaining(t) < Remaining(s)
            && t.requests == s.requests && t.nowMs == s.nowMs
            && NoneFailedSince(s, t)
  {
  }

  /** Whatever refresh is in flight can be brought to its end, without touching any request. */
  lemma Drain(events: seq<Event>, response: map<string, Json>) returns (run: seq<Event>)
    requires Legal(events)
    ensures events <= run && Legal(run) && Run(run).inFlight == None
    ensures Run(run).requests == Run(events).requests && Run(run).nowMs == Run(events).nowMs
    ensures NoneFailedSince(Run(events), Run(run))
    decreases Remaining(Run(events))
  {
    RunKeepsInvariant(events);
    if Run(events).inFlight == None {
      run := events;
    } else {
      AdvanceStep(Run(events), response);
      var e := Advance(Run(events), response);
      Runs.Extend(PROTOCOL, events, e);
      run := Drain(events + [e], response);
    }
  }

  lemma ReplyFollows(events: seq<Event>, r: RequestId) returns (run: seq<Event>)
    requires Legal(events) && HasRequest(Run(events), r) && Run(events).requests[r].Replaying?
    ensures events <= run && Legal(run) && HasRequest(Run(run), r)
    ensures Run(run).requests[r].Answered? && Run(run).requests[r].reply.Success?
  {
    Runs.Extend(PROTOCOL, events, SendReply(r));
    run := events + [SendReply(r)];
  }

  /** A waiter can go on once its refresh has ended: to a success if that has not failed. */
  lemma WaiterGoesOn(events: seq<Event>, r: RequestId) returns (run: seq<Event>)
    requires Legal(events) && HasRequest(Run(events), r) && Run(events).requests[r].Waiting?
    requires Run(events).inFlight == None
    ensures Run(events).requests[r].flight < |Run(events).flights|
    ensures events <= run && Legal(run) && HasRequest(Run(run), r) && Run(run).requests[r].Answered?
    ensures !Run(events).flights[Run(events).requests[r].flight].Failed? ==> Run(run).requests[r].reply.Success?
  {
    RunKeepsInvariant(events);
    Runs.Extend(PROTOCOL, events, Resume(r));
    run := events + [Resume(r)];
    if Run(run).requests[r].Replaying? {
      run := ReplyFollows(run, r);
    }
  }

  /** In every reachable state, whatever failed before: a request that is reading the cache can still
      get a successful reply. */
  lemma RetrySucceeds(events: seq<Event>, r: RequestId, response: map<string, Json>) returns (run: seq<Event>)
    requires Legal(events) && HasRequest(Run(events), r) && Run(events).requests[r].ReadingCache?
    ensures events <= run && Legal(run) && HasRequest(Run(run), r)
    ensures Run(run).requests[r].Answered? && Run(run).requests[r].reply.Success?
  {
    run := Drain(events, response);
    Runs.Extend(PROTOCOL, run, ReadCache(r));
    run := run + [ReadCache(r)];
    if Run(run).requests[r].Waiting? {
      run := Drain(run, response);
      run := WaiterGoesOn(run, r);
    } else {
      run := ReplyFollows(run, r);
    }
  }

  /** No waiter is ever stuck: it is answered once the refresh in flight has ended. */
  lemma EveryWaiterCanBeAnswered(events: seq<Event>, r: RequestId, response: map<string, Json>) returns (run: seq<Event>)
    requires Legal(events) && HasRequest(Run(events), r) && Run(events).requests[r].Waiting?
    ensures events <= run && Legal(run) && HasRequest(Run(run), r)
    ensures Run(run).requests[r].Answered?
  {
    run := Drain(events, response);
    run := WaiterGoesOn(run, r);
  }
}
