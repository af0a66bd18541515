/** The coalescing refresher of the desktop snapshot: one load at a time, and a queue of depth one.
    Event turns are atomic. */
module SnapshotRefresh {
  import Runs
  import opened Wrappers

  type CallId = nat
  type PromiseId = nat
  type LoadId = nat

  datatype CallState = Waiting(promise: PromiseId) | Fulfilled | Rejected

  datatype State = State(
    promise: Option<PromiseId>,        // refreshSnapshotPromise.current
    queued: bool,                      // refreshSnapshotQueued.current
    promises: nat,                     // promises made so far, which number themselves
    loads: nat,                        // loads begun so far, which number themselves
    running: map<LoadId, PromiseId>,   // loads under way, each with the promise its `run` settles
    calls: map<CallId, CallState>
  )

  /** Any load under way may end next, in whatever order. */
  datatype Event = Call(call: CallId) | LoadSucceeds(load: LoadId) | LoadFails(load: LoadId)

  const INITIAL := State(None, false, 0, 0, map[], map[])

  /** Every call that waits for the promise is told how it ended. */
  function Resolve(calls: map<CallId, CallState>, promise: PromiseId, result: CallState): map<CallId, CallState> {
    map c | c in calls :: if calls[c] == Waiting(promise) then result else calls[c]
  }

  /** One round of the `do` loop of the `run` behind `promise`. */
  function BeginLoad(s: State, promise: PromiseId): State {
    s.(queued := false, loads := s.loads + 1, running := s.running[s.loads := promise])
  }

  /** The end of the `run` behind `promise`, with its `finally` handler. */
  function EndRun(s: State, promise: PromiseId, result: CallState): State {
    s.(promise := None, calls := Resolve(s.calls, promise, result))
  }

  predicate Enabled(s: State, e: Event) {
    match e
    case Call(c) => c !in s.calls
    case LoadSucceeds(l) => l in s.running
    case LoadFails(l) => l in s.running
  }

  function Next(s: State, e: Event): State {
    if !Enabled(s, e) then s else
    match e
    case Call(c) =>
      if s.promise.Some? then s.(queued := true, calls := s.calls[c := Waiting(s.promise.value)])
      else BeginLoad(s, s.promises).(promise := Some(s.promises), promises := s.promises + 1,
                                     calls := s.calls[c := Waiting(s.promises)])
    case LoadSucceeds(l) =>
      var t := s.(running := s.running - {l});
      if s.queued then BeginLoad(t, s.running[l]) else EndRun(t, s.running[l], Fulfilled)
    case LoadFails(l) => EndRun(s.(running := s.running - {l}), s.running[l], Rejected)
  }

  const PROTOCOL := Runs.Protocol(INITIAL, Enabled, Next)

  function Run(events: seq<Event>): State {
    Runs.Run(PROTOCOL, events)
  }

  predicate Legal(events: seq<Event>) {
    Runs.Legal(PROTOCOL, events)
  }

  /** The state before step i. */
  function At(events: seq<Event>, i: nat): State
    requires i <= |events|
  {
    Runs.At(PROTOCOL, events, i)
  }

  // ---------------------------------------------------------------- the invariant

  /** Loads under way, which are numbered by `loads`, belong to the current promise, and there is never
      more than one; calls wait only for the current promise. */
  ghost predicate Inv(s: State) {
    && (s.promise.Some? ==> s.promise.value < s.promises)
    && (s.running != map[] <==> s.promise.Some?)
    && (forall l :: l in s.running ==> l + 1 == s.loads && s.promise == Some(s.running[l]))
    && (forall c :: c in s.calls && s.calls[c].Waiting? ==> s.promise == Some(s.calls[c].promise))
  }

  lemma StepKeepsInvariant(s: State, e: Event)
    requires Inv(s) && Enabled(s, e)
    ensures Inv(Next(s, e))
  {
    if e.Call? {
      assert s.promise.None? ==> s.loads in Next(s, e).running;
    } else {
      assert s.running - {e.load} == map[];
      assert e.LoadSucceeds? && s.queued ==> s.loads in Next(s, e).running;
    }
  }

  lemma {:induction false} RunKeepsInvariant(events: seq<Event>)
    requires Legal(events)
    ensures Inv(Run(events))
    decreases |events|
  {
    if events != [] {
      RunKeepsInvariant(events[..|events| - 1]);
      StepKeepsInvariant(Run(events[..|events| - 1]), events[|events| - 1]);
    }
  }

  lemma OnlyKey(running: map<LoadId, PromiseId>, l: LoadId)
    requires l in running && forall k :: k in running ==> k == l
    ensures |running| == 1
  {
    assert running.Keys == {l};
    assert |running| == |running.Keys|;
  }

  /** In every run at most one load is under way, and one is exactly while a promise is current. */
  lemma LoadsNeverOverlap(events: seq<Event>)
    requires Legal(events)
    ensures |Run(events).running| <= 1
    ensures |Run(events).running| == 1 <==> Run(events).promise.Some?
  {
    RunKeepsInvariant(events);
    var running := Run(events).running;
    if running != map[] {
      var l :| l in running;
      OnlyKey(running, l);
    }
  }

  /** A call begins a load exactly if none is under way, and leaves one under way. */
  lemma CallBeginsLoadIff(events: seq<Event>, c: CallId)
    requires Legal(events) && Enabled(Run(events), Call(c))
    ensures |Next(Run(events), Call(c)).running| == 1
    ensures Next(Run(events), Call(c)).loads > Run(events).loads <==> |Run(events).running| == 0
  {
    LoadsNeverOverlap(events);
    Runs.Extend(PROTOCOL, events, Call(c));
    LoadsNeverOverlap(events + [Call(c)]);
  }

  /** Nobody waits in vain: while any call waits, a load is under way whose end serves that call or
      begins the next round for it. */
  lemma WaitingCallHasLoad(events: seq<Event>, c: CallId) returns (l: LoadId)
    requires Legal(events) && c in Run(events).calls && Run(events).calls[c].Waiting?
    ensures l in Run(events).running && Run(events).running[l] == Run(events).calls[c].promise
    ensures !Run(events).queued ==> Next(Run(events), LoadSucceeds(l)).calls[c] == Fulfilled
    ensures Run(events).queued ==>
              Next(Run(events), LoadSucceeds(l)).running == map[Run(events).loads := Run(events).calls[c].promise]
  {
    RunKeepsInvariant(events);
    l :| l in Run(events).running;
    assert Run(events).running - {l} == map[];
  }

  // ---------------------------------------------------------------- when a call settles

  /** A load end after which no further round begins. */
  predicate EndsRun(s: State, e: Event) {
    e.LoadFails? || (e.LoadSucceeds? && !s.queued)
  }

  /** Such a load end settles every waiting call, by its outcome, and nothing else settles any. */
  lemma CallSettlesIff(s: State, e: Event, c: CallId)
    requires Inv(s) && Enabled(s, e) && c in s.calls && s.calls[c].Waiting?
    ensures c in Next(s, e).calls
    ensures Next(s, e).calls[c] == if !EndsRun(s, e) then s.calls[c] else if e.LoadFails? then Rejected else Fulfilled
  {
  }

  lemma SettledStays(s: State, e: Event, c: CallId)
    requires Enabled(s, e) && c in s.calls && !s.calls[c].Waiting?
    ensures c in Next(s, e).calls && Next(s, e).calls[c] == s.calls[c]
  {
  }

  lemma CallIsKnownAtOnce(events: seq<Event>, c: CallId)
    requires Legal(events) && events != [] && events[|events| - 1] == Call(c)
    ensures c in Run(events).calls && Run(events).calls[c].Waiting?
  {
  }

  /** Step k ends a run of the `do` loop. */
  predicate EndsRunAt(events: seq<Event>, k: nat) {
    k < |events| && EndsRun(At(events, k), events[k])
  }

  /** Step k is the first after step i that does. */
  ghost predicate FirstEndAfter(events: seq<Event>, i: nat, k: nat) {
    i < k && EndsRunAt(events, k) && forall j: nat :: i < j < k ==> !EndsRunAt(events, j)
  }

  /** No step since step i ends a run of the loop. */
  ghost predicate NoEndSince(events: seq<Event>, i: nat) {
    forall k: nat :: i < k < |events| ==> !EndsRunAt(events, k)
  }

  lemma SameEnd(events: seq<Event>, n: nat, k: nat)
    requires k < n <= |events|
    ensures EndsRunAt(events[..n], k) <==> EndsRunAt(events, k)
  {
    assert events[..n][..k] == events[..k];
  }

  lemma NoEndSinceStep(events: seq<Event>, i: nat)
    requires i < |events| - 1
    ensures NoEndSince(events, i) <==> NoEndSince(events[..|events| - 1], i) && !EndsRunAt(events, |events| - 1)
  {
    var before := events[..|events| - 1];
    forall k: nat | k < |before| ensures EndsRunAt(before, k) <==> EndsRunAt(events, k) {
      SameEnd(events, |before|, k);
    }
    if NoEndSince(before, i) && !EndsRunAt(events, |before|) {
      forall k: nat | i < k < |events| ensures !EndsRunAt(events, k) {
        assert k < |before| ==> !EndsRunAt(before, k);
      }
    }
  }

  lemma {:induction false} WaitsUntilAnEnd(events: seq<Event>, i: nat, c: CallId)
    requires Legal(events) && i < |events| && events[i] == Call(c)
    ensures c in Run(events).calls
    ensures Run(events).calls[c].Waiting? <==> NoEndSince(events, i)
    decreases |events|
  {
    var n := |events| - 1;
    if i == n {
      CallIsKnownAtOnce(events, c);
    } else {
      Runs.LegalPrefix(PROTOCOL, events, n);
      WaitsUntilAnEnd(events[..n], i, c);
      RunKeepsInvariant(events[..n]);
      NoEndSinceStep(events, i);
      if At(events, n).calls[c].Waiting? {
        CallSettlesIff(At(events, n), events[n], c);
      } else {
        SettledStays(At(events, n), events[n], c);
      }
    }
  }

  lemma {:induction false} OutcomeStays(events: seq<Event>, m: nat, c: CallId)
    requires Legal(events) && m <= |events| && c in At(events, m).calls && !At(events, m).calls[c].Waiting?
    ensures c in Run(events).calls && Run(events).calls[c] == At(events, m).calls[c]
    decreases |events|
  {
    var n := |events|;
    if m == n {
      assert events[..n] == events;
    } else {
      assert events[..n - 1][..m] == events[..m];
      OutcomeStays(events[..n - 1], m, c);
      SettledStays(Run(events[..n - 1]), events[n - 1], c);
    }
  }

  /** What a call made at step i is told, in any run: nothing as long as no load end that fails or finds
      nothing queued has come after it; from the first such end on, the outcome of that one. */
  lemma CallSettlesAtFirstEnd(events: seq<Event>, i: nat, c: CallId)
    requires Legal(events) && i < |events| && events[i] == Call(c)
    ensures c in Run(events).calls
    ensures Run(events).calls[c].Waiting? <==> NoEndSince(events, i)
    ensures forall k: nat :: FirstEndAfter(events, i, k) ==>
              Run(events).calls[c] == if events[k].LoadFails? then Rejected else Fulfilled
  {
    WaitsUntilAnEnd(events, i, c);
    forall k: nat | FirstEndAfter(events, i, k)
      ensures Run(events).calls[c] == if events[k].LoadFails? then Rejected else Fulfilled
    {
      FirstEndSettles(events, i, k, c);
    }
  }

  lemma FirstEndSettles(events: seq<Event>, i: nat, k: nat, c: CallId)
    requires Legal(events) && i < |events| && events[i] == Call(c) && FirstEndAfter(events, i, k)
    ensures c in Run(events).calls
    ensures Run(events).calls[c] == if events[k].LoadFails? then Rejected else Fulfilled
  {
    Runs.LegalPrefix(PROTOCOL, events, k);
    forall j: nat | i < j < k ensures !EndsRunAt(events[..k], j) {
      SameEnd(events, k, j);
    }
    WaitsUntilAnEnd(events[..k], i, c);
    RunKeepsInvariant(events[..k]);
    CallSettlesIff(At(events, k), events[k], c);
    OutcomeStays(events, k + 1, c);
  }

  /** No number of successful loads is enough: for every n there is a run in which n loads have succeeded
      and the first call still waits, since a further call came during each of them. */
  lemma {:induction false} MayWaitAnyTime(n: nat) returns (events: seq<Event>)
    ensures Legal(events) && events != [] && events[0] == Call(0)
    ensures |events| == 2 * n + 1 && forall k :: 1 <= k <= n ==> events[2 * k] == LoadSucceeds(k - 1)
    ensures Run(events).running == map[n := 0] && Run(events).loads == n + 1 && !Run(events).queued
    ensures Run(events).promise == Some(0) && forall c: CallId :: c in Run(events).calls <==> c <= n
    ensures 0 in Run(events).calls && Run(events).calls[0] == Waiting(0)
  {
    if n == 0 {
      events := [Call(0)];
      Runs.Extend(PROTOCOL, [], Call(0));
      assert [] + [Call(0)] == [Call(0)];
    } else {
      var earlier := MayWaitAnyTime(n - 1);
      assert n !in Run(earlier).calls;
      Runs.Extend(PROTOCOL, earlier, Call(n));
      Runs.Extend(PROTOCOL, earlier + [Call(n)], LoadSucceeds(n - 1));
      events := earlier + [Call(n)] + [LoadSucceeds(n - 1)];
      assert Run(earlier).running - {n - 1} == map[];
    }
  }

  /** A call that is rejected need not have had a load of its own: here the second call joins a load that
      fails, and none has begun since. */
  lemma RejectedWithoutLoad() returns (events: seq<Event>)
    ensures Legal(events) && events == [Call(0), Call(1), LoadFails(0)]
    ensures 1 in Run(events).calls && Run(events).calls[1] == Rejected
    ensures Run(events).loads == At(events, 1).loads == 1
  {
    Runs.Extend(PROTOCOL, [], Call(0));
    assert [] + [Call(0)] == [Call(0)];
    Runs.Extend(PROTOCOL, [Call(0)], Call(1));
    assert [Call(0)] + [Call(1)] == [Call(0), Call(1)];
    Runs.Extend(PROTOCOL, [Call(0), Call(1)], LoadFails(0));
    events := [Call(0), Call(1)] + [LoadFails(0)];
    assert events[..1] == [Call(0)];
  }

  // ---------------------------------------------------------------- coverage

  /** Step j begins load l. */
  predicate BeginsLoad(events: seq<Event>, j: nat, l: LoadId) {
    j < |events| && l !in At(events, j).running && l in At(events, j + 1).running && At(events, j).loads == l
  }

  /** At least `mark` loads have begun, and one more has or is queued. */
  predicate IsOwed(s: State, mark: nat) {
    mark <= s.loads && (s.queued || mark < s.loads)
  }

  lemma StepKeepsOwed(s: State, e: Event, c: CallId, mark: nat)
    requires Inv(s) && Enabled(s, e) && IsOwed(s, mark)
    requires c in s.calls && c in Next(s, e).calls && Next(s, e).calls[c].Waiting?
    ensures IsOwed(Next(s, e), mark)
  {
  }

  lemma StepKeepsWaiting(s: State, e: Event, c: CallId)
    requires Enabled(s, e) && c in s.calls && c in Next(s, e).calls && Next(s, e).calls[c].Waiting?
    ensures s.calls[c].Waiting?
  {
  }

  /** A call made at step i that still waits is owed a load: one has begun at or after the call, or one
      is queued. */
  lemma {:induction false} WaitingCallIsOwedLoad(events: seq<Event>, i: nat, c: CallId)
    requires Legal(events) && i < |events| && events[i] == Call(c)
    requires c in Run(events).calls && Run(events).calls[c].Waiting?
    ensures IsOwed(Run(events), At(events, i).loads)
    decreases |events|
  {
    var n := |events| - 1;
    Runs.LegalPrefix(PROTOCOL, events, n);
    if i < n {
      var before := events[..n];
      assert before[..i] == events[..i];
      CallIsKnown(before, i, c);
      RunKeepsInvariant(before);
      StepKeepsWaiting(Run(before), events[n], c);
      WaitingCallIsOwedLoad(before, i, c);
      StepKeepsOwed(Run(before), events[n], c, At(events, i).loads);
    }
  }

  lemma {:induction false} CallIsKnown(events: seq<Event>, i: nat, c: CallId)
    requires Legal(events) && i < |events| && events[i] == Call(c)
    ensures c in Run(events).calls
    decreases |events|
  {
    if i < |events| - 1 {
      CallIsKnown(events[..|events| - 1], i, c);
    }
  }

  /** Step i is a call that finds a load under way, and no load has begun since. */
  predicate AsksForRound(events: seq<Event>, i: nat) {
    i < |events| && events[i].Call? && At(events, i).promise.Some? && At(events, i).loads == Run(events).loads
  }

  lemma QueueStep(s: State, e: Event)
    requires Enabled(s, e)
    ensures Next(s, e).loads == s.loads || Next(s, e).loads == s.loads + 1
    ensures Next(s, e).queued <==> Next(s, e).loads == s.loads && (s.queued || (e.Call? && s.promise.Some?))
  {
  }

  lemma {:induction false} LoadsOnlyGrow(events: seq<Event>, i: nat)
    requires Legal(events) && i <= |events|
    ensures At(events, i).loads <= Run(events).loads
    decreases |events|
  {
    if i == |events| {
      assert events[..i] == events;
    } else {
      var n := |events| - 1;
      assert events[..n][..i] == events[..i];
      LoadsOnlyGrow(events[..n], i);
      QueueStep(Run(events[..n]), events[n]);
    }
  }

  /** In every run a further round is queued exactly if some call that found a load under way has come since
      the last load began, whatever ended since. */
  lemma {:induction false} QueuedIffCalledSince(events: seq<Event>)
    requires Legal(events)
    ensures Run(events).queued <==> exists i: nat :: AsksForRound(events, i)
    decreases |events|
  {
    if events != [] {
      var n := |events| - 1;
      QueuedIffCalledSince(events[..n]);
      QueueStep(Run(events[..n]), events[n]);
      forall i: nat | i < n
        ensures AsksForRound(events, i) <==> AsksForRound(events[..n], i) && Run(events).loads == Run(events[..n]).loads
      {
        assert events[..n][..i] == events[..i] && events[..n][i] == events[i];
        LoadsOnlyGrow(events[..n], i);
      }
      assert AsksForRound(events, n) <==>
             events[n].Call? && Run(events[..n]).promise.Some? && Run(events).loads == Run(events[..n]).loads;
      if Run(events[..n]).queued && Run(events).queued {
        var i: nat :| AsksForRound(events[..n], i);
        assert AsksForRound(events, i);
      }
    }
  }

  lemma StepBegins(s: State, e: Event)
    requires Inv(s) && Next(s, e).loads != s.loads
    ensures Next(s, e).loads == s.loads + 1
    ensures s.loads !in s.running && s.loads in Next(s, e).running
  {
  }

  lemma CountedStepBegins(events: seq<Event>, j: nat)
    requires Legal(events) && j < |events| && At(events, j + 1).loads != At(events, j).loads
    ensures BeginsLoad(events, j, At(events, j).loads) && At(events, j + 1).loads == At(events, j).loads + 1
  {
    Runs.AtNext(PROTOCOL, events, j);
    Runs.LegalPrefix(PROTOCOL, events, j);
    RunKeepsInvariant(events[..j]);
    StepBegins(At(events, j), events[j]);
  }

  /** The step at which the last load began, if any began since step i. */
  lemma {:induction false} FindLoad(events: seq<Event>, i: nat, k: nat) returns (j: nat)
    requires Legal(events) && i <= k <= |events| && At(events, i).loads < At(events, k).loads
    ensures i <= j < k && BeginsLoad(events, j, At(events, k).loads - 1)
    decreases k
  {
    j := k - 1;
    if At(events, j).loads != At(events, k).loads {
      CountedStepBegins(events, j);
    } else {
      j := FindLoad(events, i, j);
    }
  }

  /** A call is fulfilled only as a load succeeds, for its own promise and with nothing queued. */
  lemma FulfilledNow(s: State, e: Event, c: CallId)
    requires Enabled(s, e) && c in s.calls && c in Next(s, e).calls
    requires !s.calls[c].Fulfilled? && Next(s, e).calls[c].Fulfilled?
    ensures e.LoadSucceeds? && !s.queued && s.calls[c] == Waiting(s.running[e.load])
  {
  }

  /** The covering load of a call that the last event fulfils. */
  lemma LastEventCovers(events: seq<Event>, i: nat, c: CallId) returns (l: LoadId, j: nat)
    requires Legal(events) && i < |events| - 1 && events[i] == Call(c)
    requires c in Run(events).calls && Run(events).calls[c].Fulfilled?
    requires c in At(events, |events| - 1).calls && !At(events, |events| - 1).calls[c].Fulfilled?
    ensures i <= j < |events| - 1 && BeginsLoad(events, j, l)
    ensures events[|events| - 1] == LoadSucceeds(l) && At(events, |events| - 1).calls[c].Waiting?
  {
    var n := |events| - 1;
    Runs.LegalPrefix(PROTOCOL, events, n);
    FulfilledNow(At(events, n), events[n], c);
    assert events[..n][..i] == events[..i];
    WaitingCallIsOwedLoad(events[..n], i, c);
    RunKeepsInvariant(events[..n]);
    l := events[n].load;
    j := FindLoad(events, i, n);
  }

  /** A step of a prefix is the same step of the whole. */
  lemma SameSteps(events: seq<Event>, n: nat, i: nat)
    requires i < n <= |events|
    ensures At(events[..n], i) == At(events, i) && At(events[..n], i + 1) == At(events, i + 1)
  {
    assert events[..n][..i] == events[..i] && events[..n][..i + 1] == events[..i + 1];
  }

  /** A call whose promise fulfils is covered: the load whose success at step k fulfilled it began at a
      step j that is the call itself or comes after it. */
  lemma {:induction false} FulfilledCallIsCovered(events: seq<Event>, i: nat, c: CallId)
      returns (l: LoadId, j: nat, k: nat)
    requires Legal(events) && i < |events| && events[i] == Call(c)
    requires c in Run(events).calls && Run(events).calls[c].Fulfilled?
    ensures i <= j < k < |events|
    ensures BeginsLoad(events, j, l) && events[k] == LoadSucceeds(l)
    ensures c in At(events, k).calls && At(events, k).calls[c].Waiting?
    ensures c in At(events, k + 1).calls && At(events, k + 1).calls[c].Fulfilled?
    decreases |events|
  {
    var n := |events| - 1;
    assert events[..|events|] == events;
    if i == n {
      CallIsKnownAtOnce(events, c);
    }
    Runs.LegalPrefix(PROTOCOL, events, n);
    CallIsKnown(events[..n], i, c);
    if At(events, n).calls[c].Fulfilled? {
      l, j, k := FulfilledCallIsCovered(events[..n], i, c);
      SameSteps(events, n, j);
      SameSteps(events, n, k);
    } else {
      k := n;
      l, j := LastEventCovers(events, i, c);
    }
  }
}

/** The refresher with its two refs; each method takes exactly one step of the protocol. */
module SnapshotRefresher {
  import Runs
  import opened Wrappers
  import opened SnapshotRefresh

  class Refresher {
    var promise: Option<PromiseId>
    var queued: bool
    var promises: nat
    var loads: nat
    var running: map<LoadId, PromiseId>
    var calls: map<CallId, CallState>
    ghost var history: seq<Event>      // the steps taken so far

    function View(): State
      reads this
    {
      State(promise, queued, promises, loads, running, calls)
    }

    /** The object is where a legal run of the protocol has brought it. */
    ghost predicate Valid()
      reads this
    {
      Legal(history) && View() == Run(history)
    }

    constructor ()
      ensures Valid() && history == []
    {
      promise, queued, promises, loads, running, calls := None, false, 0, 0, map[], map[];
      history := [];
    }

    /** One round of the `do` loop: the request is no longer queued and a load begins. */
    method BeginRound(owner: PromiseId)
      modifies this`queued, this`loads, this`running
      ensures View() == BeginLoad(old(View()), owner)
    {
      queued := false;
      running := running[loads := owner];
      loads := loads + 1;
    }

    /** A new promise, with its first round. */
    method BeginRun(c: CallId)
      requires promise.None? && c !in calls
      modifies this`promise, this`queued, this`promises, this`loads, this`running, this`calls
      ensures View() == Next(old(View()), Event.Call(c))
    {
      BeginRound(promises);
      promise := Some(promises);
      promises := promises + 1;
      calls := calls[c := Waiting(promise.value)];
    }

    /** A call begins a load only if none is under way. */
    method RefreshSnapshot(c: CallId)
      requires Valid() && Enabled(View(), Event.Call(c))
      modifies this
      ensures Valid() && history == old(history) + [Event.Call(c)]
      ensures View() == Next(old(View()), Event.Call(c))
      ensures |running| == 1
      ensures loads > old(loads) <==> |old(running)| == 0
    {
      CallBeginsLoadIff(history, c);
      Runs.Extend(PROTOCOL, history, Event.Call(c));
      history := history + [Event.Call(c)];
      if promise.Some? {
        queued := true;
        calls := calls[c := Waiting(promise.value)];
      } else {
        BeginRun(c);
      }
    }

    /** A load that succeeds leaves nobody waiting, unless a further round begins for all who wait. */
    method FinishLoad(l: LoadId)
      requires Valid() && Enabled(View(), Event.LoadSucceeds(l))
      modifies this
      ensures Valid() && history == old(history) + [Event.LoadSucceeds(l)]
      ensures View() == Next(old(View()), Event.LoadSucceeds(l))
      ensures l !in running
      ensures if old(queued) then |running| == 1 else running == map[] && forall c :: c in calls ==> !calls[c].Waiting?
    {
      ghost var before := View();
      RunKeepsInvariant(history);
      Runs.Extend(PROTOCOL, history, Event.LoadSucceeds(l));
      history := history + [Event.LoadSucceeds(l)];
      assert Run(history) == Next(before, Event.LoadSucceeds(l));
      var owner := running[l];
      running := running - {l};
      if queued {
        BeginRound(owner);
      } else {
        calls := Resolve(calls, owner, Fulfilled);
        promise := None;
      }
      RunKeepsInvariant(history);
      LoadsNeverOverlap(history);
    }

    /** A load that fails leaves nobody waiting and nothing running, also when a round was queued. */
    method FailLoad(l: LoadId)
      requires Valid() && Enabled(View(), Event.LoadFails(l))
      modifies this
      ensures Valid() && history == old(history) + [Event.LoadFails(l)]
      ensures View() == Next(old(View()), Event.LoadFails(l))
      ensures running == map[] && forall c :: c in calls ==> !calls[c].Waiting?
    {
      ghost var before := View();
      Runs.Extend(PROTOCOL, history, Event.LoadFails(l));
      history := history + [Event.LoadFails(l)];
      assert Run(history) == Next(before, Event.LoadFails(l));
      calls := Resolve(calls, running[l], Rejected);
      running := running - {l};
      promise := None;
      RunKeepsInvariant(history);
    }
  }
}
