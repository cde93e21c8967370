/** Runs of a state machine that is given by when an event can happen and what it does. */
module Runs {
  ghost predicate CanRun<S(!new), E(!new)>(enabled: (S, E) -> bool, next: (S, E) -> S, s: S, events: seq<E>)
    decreases |events|
  {
    events == [] || (enabled(s, events[0]) && CanRun(enabled, next, next(s, events[0]), events[1..]))
  }

  ghost function After<S(!new), E(!new)>(next: (S, E) -> S, s: S, events: seq<E>): S
    decreases |events|
  {
    if events == [] then s else After(next, next(s, events[0]), events[1..])
  }

  lemma {:induction false} Concat<S(!new), E(!new)>(
    enabled: (S, E) -> bool, next: (S, E) -> S, s: S, one: seq<E>, two: seq<E>)
    requires CanRun(enabled, next, s, one) && CanRun(enabled, next, After(next, s, one), two)
    ensures CanRun(enabled, next, s, one + two) && After(next, s, one + two) == After(next, After(next, s, one), two)
    decreases |one|
  {
    if one == [] {
      assert one + two == two;
    } else {
      assert (one + two)[0] == one[0] && (one + two)[1..] == one[1..] + two;
      Concat(enabled, next, next(s, one[0]), one[1..], two);
    }
  }
}
