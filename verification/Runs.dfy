/** Protocols and their runs: a state, events that may be possible in it, and the state each leads to. */
module Runs {
  datatype Protocol<!S, !E> = Protocol(initial: S, enabled: (S, E) -> bool, next: (S, E) -> S)

  /** The state after the events. */
  function Run<S, E>(p: Protocol<S, E>, events: seq<E>): S {
    if events == [] then p.initial else p.next(Run(p, events[..|events| - 1]), events[|events| - 1])
  }

  /** Every event of the run was possible when it happened. */
  predicate Legal<S, E>(p: Protocol<S, E>, events: seq<E>) {
    events == []
    || (Legal(p, events[..|events| - 1]) && p.enabled(Run(p, events[..|events| - 1]), events[|events| - 1]))
  }

  /** The state before event i. */
  function At<S, E>(p: Protocol<S, E>, events: seq<E>, i: nat): S
    requires i <= |events|
  {
    Run(p, events[..i])
  }

  lemma AtNext<S, E>(p: Protocol<S, E>, events: seq<E>, i: nat)
    requires i < |events|
    ensures At(p, events, i + 1) == p.next(At(p, events, i), events[i])
  {
    assert events[..i + 1][..i] == events[..i];
  }

  lemma {:induction false} LegalPrefix<S, E>(p: Protocol<S, E>, events: seq<E>, i: nat)
    requires Legal(p, events) && i <= |events|
    ensures Legal(p, events[..i])
    ensures i < |events| ==>
              p.enabled(At(p, events, i), events[i]) && At(p, events, i + 1) == p.next(At(p, events, i), events[i])
    decreases |events|
  {
    var n := |events|;
    if i == n {
      assert events[..n] == events;
    } else {
      AtNext(p, events, i);
      LegalPrefix(p, events[..n - 1], i);
      assert events[..n - 1][..i] == events[..i];
    }
  }

  lemma RunExtend<S, E>(p: Protocol<S, E>, events: seq<E>, e: E)
    ensures Run(p, events + [e]) == p.next(Run(p, events), e)
  {
    assert (events + [e])[..|events + [e]| - 1] == events;
  }

  lemma Extend<S, E>(p: Protocol<S, E>, events: seq<E>, e: E)
    requires Legal(p, events) && p.enabled(Run(p, events), e)
    ensures Legal(p, events + [e]) && Run(p, events + [e]) == p.next(Run(p, events), e)
  {
    RunExtend(p, events, e);
    assert (events + [e])[..|events + [e]| - 1] == events;
  }
}
