/**
 A poller, web/js/net/poller.js, as a state machine together with its surroundings:
 the polls that have not called back, the throttled call that has not fired, and the
 deferred calls. Data is compared by value; `nothing` is the initial null.
 */
module Polling {
  datatype State<T> = State(
    nothing: T,
    lastData: T,
    isPolling: bool,
    stopped: bool,
    paused: bool,
    outstanding: nat,   // polls that have not called back
    throttled: bool,    // doPoll was called and its body has not run since
    deferred: nat,      // nextPoll calls waiting for the event loop
    accepted: seq<T>,   // what successful polls brought while the poller was not stopped
    reports: seq<T>     // what onChange was called with
  )

  datatype Event<T> =
    | Start
    | Stop
    | SetPaused(paused: bool)
    | Fire
    | Deferred
    | Success(newData: T)
    | Error

  function Created<T>(nothing: T): State<T> {
    State(nothing, nothing, false, true, false, 0, false, 0, [], [])
  }

  /** A throttled call runs its body once after doPoll; a poll calls back once; a deferred call runs once. */
  predicate Enabled<T>(s: State<T>, e: Event<T>) {
    match e
    case Fire => s.throttled
    case Deferred => s.deferred > 0
    case Success(_) => s.outstanding > 0
    case Error => s.outstanding > 0
    case _ => true
  }

  function Scheduled<T>(s: State<T>): State<T> {
    if !s.stopped && !s.paused then s.(throttled := true) else s
  }

  function Fired<T>(s: State<T>): State<T> {
    if !s.isPolling && !s.stopped then s.(isPolling := true, outstanding := s.outstanding + 1) else s
  }

  function Succeeded<T(==)>(s: State<T>, newData: T): State<T> {
    var s := s.(isPolling := false);
    if s.stopped then s
    else
      var s := s.(accepted := s.accepted + [newData],
                  reports := if newData != s.lastData then s.reports + [newData] else s.reports);
      s.(lastData := newData, deferred := s.deferred + 1)
  }

  function Failed<T>(s: State<T>): State<T> {
    s.(isPolling := false, deferred := s.deferred + 1)
  }

  function Next<T(==)>(s: State<T>, e: Event<T>): State<T>
    requires Enabled(s, e)
  {
    match e
    case Start => Scheduled(s.(stopped := false))
    case Stop => s.(stopped := true)
    case SetPaused(paused) => if paused then s.(paused := true) else Scheduled(s.(paused := false))
    case Fire => Fired(s.(throttled := false))
    case Deferred => Scheduled(s.(deferred := s.deferred - 1))
    case Success(newData) => Succeeded(s.(outstanding := s.outstanding - 1), newData)
    case Error => Failed(s.(outstanding := s.outstanding - 1))
  }

  // ---------- What is reported ----------

  function LastOr<T>(first: T, data: seq<T>): T {
    if data == [] then first else data[|data| - 1]
  }

  /** The values that differ from the one before them, `before` standing before the first. */
  function Changes<T(==)>(before: T, data: seq<T>): seq<T> {
    if data == [] then []
    else if data[0] == before then Changes(before, data[1..])
    else [data[0]] + Changes(data[0], data[1..])
  }

  ghost predicate NoRepeat<T(!new)>(before: T, data: seq<T>) {
    && (data != [] ==> data[0] != before)
    && forall i :: 0 < i < |data| ==> data[i] != data[i - 1]
  }

  lemma {:induction false} ChangesAppend<T>(before: T, data: seq<T>, x: T)
    ensures Changes(before, data + [x]) == Changes(before, data) + (if x == LastOr(before, data) then [] else [x])
  {
    if data == [] {
      assert data + [x] == [x];
      assert Changes(x, [x][1..]) == [];
    } else {
      assert (data + [x])[1..] == data[1..] + [x];
      ChangesAppend(data[0], data[1..], x);
    }
  }

  lemma {:induction false} ChangesNeverRepeat<T(!new)>(before: T, data: seq<T>)
    ensures NoRepeat(before, Changes(before, data))
  {
    if data != [] {
      ChangesNeverRepeat(data[0], data[1..]);
    }
  }

  lemma {:induction false} ChangesEndAtLast<T>(before: T, data: seq<T>)
    ensures LastOr(before, Changes(before, data)) == LastOr(before, data)
  {
    if data != [] {
      ChangesEndAtLast(data[0], data[1..]);
    }
  }

  /** Data is reported whole exactly when it is free of repeats. */
  lemma {:induction false} AllChanges<T(!new)>(before: T, data: seq<T>)
    ensures Changes(before, data) == data <==> NoRepeat(before, data)
  {
    if data != [] {
      var rest := data[1..];
      AllChanges(data[0], rest);
      ChangesNoLonger(data[0], rest);
      assert data == [data[0]] + rest;
      assert NoRepeat(before, data) <==> data[0] != before && NoRepeat(data[0], rest) by {
        assert forall i :: 0 <= i < |rest| ==> rest[i] == data[i + 1];
        if data[0] != before && NoRepeat(data[0], rest) {
          forall i | 0 < i < |data| ensures data[i] != data[i - 1] {
            assert data[i] == rest[i - 1];
          }
        }
      }
    }
  }

  lemma {:induction false} ChangesNoLonger<T>(before: T, data: seq<T>)
    ensures |Changes(before, data)| <= |data|
  {
    if data != [] {
      ChangesNoLonger(data[0], data[1..]);
    }
  }

  // ---------- Every run ----------

  ghost predicate Inv<T(!new)>(s: State<T>) {
    && s.outstanding == (if s.isPolling then 1 else 0)
    && (!s.stopped && !s.paused ==> s.isPolling || s.throttled || s.deferred > 0)
    && s.reports == Changes(s.nothing, s.accepted)
    && s.lastData == LastOr(s.nothing, s.accepted)
  }

  lemma NextKeepsInv<T(!new)>(s: State<T>, e: Event<T>)
    requires Inv(s) && Enabled(s, e)
    ensures Inv(Next(s, e)) && Next(s, e).nothing == s.nothing
  {
    if e.Success? {
      ChangesAppend(s.nothing, s.accepted, e.newData);
    }
  }

  ghost predicate IsRun<T(!new)>(s: State<T>, events: seq<Event<T>>)
    decreases |events|
  {
    events == [] || (Enabled(s, events[0]) && IsRun(Next(s, events[0]), events[1..]))
  }

  ghost function Run<T(!new)>(s: State<T>, events: seq<Event<T>>): State<T>
    requires IsRun(s, events)
    decreases |events|
  {
    if events == [] then s else Run(Next(s, events[0]), events[1..])
  }

  lemma {:induction false} RunKeepsInv<T(!new)>(s: State<T>, events: seq<Event<T>>)
    requires Inv(s) && IsRun(s, events)
    ensures Inv(Run(s, events)) && Run(s, events).nothing == s.nothing
    decreases |events|
  {
    if events != [] {
      NextKeepsInv(s, events[0]);
      RunKeepsInv(Next(s, events[0]), events[1..]);
    }
  }

  /** At most one poll is ever out, and `isPolling` tells whether it is. */
  lemma OnePollAtATime<T(!new)>(nothing: T, events: seq<Event<T>>)
    requires IsRun(Created(nothing), events)
    ensures var s := Run(Created(nothing), events); s.outstanding == if s.isPolling then 1 else 0
  {
    RunKeepsInv(Created(nothing), events);
  }

  /**
   What onChange sees is exactly the changes in the accepted data, across stops and restarts: no two in a row are
   equal.
   */
  lemma ReportsAreChanges<T(!new)>(nothing: T, events: seq<Event<T>>)
    requires IsRun(Created(nothing), events)
    ensures var s := Run(Created(nothing), events);
            && s.reports == Changes(nothing, s.accepted)
            && NoRepeat(nothing, s.reports)
            && LastOr(nothing, s.reports) == LastOr(nothing, s.accepted)
  {
    RunKeepsInv(Created(nothing), events);
    ChangesNeverRepeat(nothing, Run(Created(nothing), events).accepted);
    ChangesEndAtLast(nothing, Run(Created(nothing), events).accepted);
  }

  /** A poller that is started and visible is never idle: a poll is out or one is on its way. */
  lemma NeverIdle<T(!new)>(nothing: T, events: seq<Event<T>>)
    requires IsRun(Created(nothing), events)
    ensures var s := Run(Created(nothing), events);
            !s.stopped && !s.paused ==> s.isPolling || Enabled(s, Fire) || Enabled(s, Deferred)
  {
    RunKeepsInv(Created(nothing), events);
  }

  // ---------- Started, stopped, accepted ----------

  function StartedBy<T>(started: bool, e: Event<T>): bool {
    e.Start? || (started && !e.Stop?)
  }

  /** Whether the poller is started after the events: the last of start and stop decides. */
  function StartedAfter<T>(started: bool, events: seq<Event<T>>): bool
    decreases |events|
  {
    if events == [] then started else StartedAfter(StartedBy(started, events[0]), events[1..])
  }

  function PausedAfter<T>(paused: bool, events: seq<Event<T>>): bool
    decreases |events|
  {
    if events == [] then paused
    else PausedAfter(if events[0].SetPaused? then events[0].paused else paused, events[1..])
  }

  /** The data that polls bring while the poller is started. */
  function BroughtWhileStarted<T>(started: bool, events: seq<Event<T>>): seq<T>
    decreases |events|
  {
    if events == [] then []
    else
      var rest := BroughtWhileStarted(StartedBy(started, events[0]), events[1..]);
      if events[0].Success? && started then [events[0].newData] + rest else rest
  }

  lemma {:induction false} RunFollowsEvents<T(!new)>(s: State<T>, events: seq<Event<T>>)
    requires IsRun(s, events)
    ensures var end := Run(s, events);
            && end.stopped == !StartedAfter(!s.stopped, events)
            && end.paused == PausedAfter(s.paused, events)
    decreases |events|
  {
    if events != [] {
      RunFollowsEvents(Next(s, events[0]), events[1..]);
    }
  }

  lemma AcceptedStep<T(!new)>(s: State<T>, e: Event<T>)
    requires Enabled(s, e)
    ensures Next(s, e).accepted == if e.Success? && !s.stopped then s.accepted + [e.newData] else s.accepted
    ensures Next(s, e).stopped == !StartedBy(!s.stopped, e)
  {
  }

  lemma {:induction false} RunAccepts<T(!new)>(s: State<T>, events: seq<Event<T>>)
    requires IsRun(s, events)
    ensures Run(s, events).accepted == s.accepted + BroughtWhileStarted(!s.stopped, events)
    decreases |events|
  {
    if events != [] {
      AcceptedStep(s, events[0]);
      RunAccepts(Next(s, events[0]), events[1..]);
    }
  }

  /**
   Exactly what is brought between a start and the next stop is accepted, and what comes after a stop is neither
   accepted nor reported.
   */
  lemma AcceptsWhileStarted<T(!new)>(nothing: T, events: seq<Event<T>>)
    requires IsRun(Created(nothing), events)
    ensures var end := Run(Created(nothing), events);
            && end.stopped == !StartedAfter(false, events)
            && end.paused == PausedAfter(false, events)
            && end.accepted == BroughtWhileStarted(false, events)
            && end.reports == Changes(nothing, BroughtWhileStarted(false, events))
  {
    RunFollowsEvents(Created(nothing), events);
    RunAccepts(Created(nothing), events);
    RunKeepsInv(Created(nothing), events);
  }

  /** A new poller waits for nothing, and a poll that is out may bring either answer. */
  lemma WhatCanHappen<T(!new)>(nothing: T, s: State<T>, e: Event<T>, data: T)
    ensures Enabled(Created(nothing), e) <==> e.Start? || e.Stop? || e.SetPaused?
    ensures Enabled(s, Success(data)) <==> s.outstanding > 0
    ensures Enabled(s, Event<T>.Error) <==> s.outstanding > 0
  {
  }

  /** What an event does to the traffic around the poller. */
  lemma TrafficOf<T(!new)>(s: State<T>, e: Event<T>)
    requires Enabled(s, e)
    ensures var next, running := Next(s, e), !s.stopped;
            && next.outstanding == s.outstanding
                                   + (if e == Fire && running && !s.isPolling then 1 else 0)
                                   - (if e.Success? || e.Error? then 1 else 0)
            && next.deferred == s.deferred
                                + (if e.Error? || (e.Success? && running) then 1 else 0)
                                - (if e == Deferred then 1 else 0)
            && (next.throttled <==>
                  || (s.throttled && e != Fire)
                  || (e == Start && !s.paused)
                  || (e == SetPaused(false) && running)
                  || (e == Deferred && running && !s.paused))
  {
  }

  // ---------- Paused ----------

  predicate StaysPaused<T(==)>(events: seq<Event<T>>) {
    forall i :: 0 <= i < |events| ==> events[i] != SetPaused(false)
  }

  /** How many polls the events start. */
  ghost function PollsStarted<T(!new)>(s: State<T>, events: seq<Event<T>>): nat
    requires IsRun(s, events)
    decreases |events|
  {
    if events == [] then 0
    else
      var next := Next(s, events[0]);
      (if next.outstanding > s.outstanding then 1 else 0) + PollsStarted(next, events[1..])
  }

  /** The first throttled call to fire finds the poller running and no poll out. */
  ghost predicate FiresIdle<T(!new)>(s: State<T>, events: seq<Event<T>>)
    requires IsRun(s, events)
    decreases |events|
  {
    events != [] && if events[0] == Fire then !s.isPolling && !s.stopped else FiresIdle(Next(s, events[0]), events[1..])
  }

  lemma {:induction false} NothingFires<T(!new)>(s: State<T>, events: seq<Event<T>>)
    requires IsRun(s, events) && s.paused && StaysPaused(events) && !s.throttled
    ensures Fire !in events && PollsStarted(s, events) == 0 && !FiresIdle(s, events)
    decreases |events|
  {
    if events != [] {
      NothingFires(Next(s, events[0]), events[1..]);
      assert events == [events[0]] + events[1..];
    }
  }

  /**
   However long the poller stays paused it starts at most one poll, and it starts one exactly if a throttled call that
   was pending at the pause fires while the poller runs and no poll is out.
   */
  lemma {:induction false} PausedStretch<T(!new)>(s: State<T>, events: seq<Event<T>>)
    requires IsRun(s, events) && s.paused && StaysPaused(events)
    ensures PollsStarted(s, events) == if s.throttled && FiresIdle(s, events) then 1 else 0
    decreases |events|
  {
    if events != [] {
      var next := Next(s, events[0]);
      if next.throttled {
        PausedStretch(next, events[1..]);
      } else {
        NothingFires(next, events[1..]);
      }
    }
  }

  /** After one poll, a trailing throttled call made before the pause starts another while paused. */
  lemma PausedPollerPolls<T(!new)>(nothing: T, data: T)
    ensures var before := [Start, Fire, Success(data), Deferred, SetPaused(true)];
            && IsRun(Created(nothing), before) && IsRun(Run(Created(nothing), before), [Fire])
            && Run(Created(nothing), before).paused
            && PollsStarted(Run(Created(nothing), before), [Fire]) == 1
  {
    var s0 := Created(nothing);
    var s1 := Next(s0, Start);
    var s2 := Next(s1, Fire);
    var s3 := Next(s2, Success(data));
    var s4 := Next(s3, Deferred);
    var s5 := Next(s4, SetPaused(true));
    OneStep(s4, SetPaused(true), []);
    OneStep(s3, Deferred, [SetPaused(true)]);
    OneStep(s2, Success(data), [Deferred, SetPaused(true)]);
    OneStep(s1, Fire, [Success(data), Deferred, SetPaused(true)]);
    OneStep(s0, Start, [Fire, Success(data), Deferred, SetPaused(true)]);
    OneStep(s5, Fire, []);
    assert PollsStarted(s5, [Fire]) == 1 + PollsStarted(Next(s5, Fire), [Fire][1..]);
  }

  lemma OneStep<T(!new)>(s: State<T>, e: Event<T>, rest: seq<Event<T>>)
    requires Enabled(s, e) && IsRun(Next(s, e), rest)
    ensures IsRun(s, [e] + rest) && Run(s, [e] + rest) == Run(Next(s, e), rest)
  {
    assert ([e] + rest)[1..] == rest;
  }

  // ---------- The object ----------

  class Poller<T(==)> {
    var lastData: T
    var isPolling: bool
    var stopped: bool
    var paused: bool
    ghost var surroundings: State<T>

    ghost function Snapshot(): State<T>
      reads this
    {
      surroundings.(lastData := lastData, isPolling := isPolling, stopped := stopped, paused := paused)
    }

    constructor (nothing: T)
      ensures Snapshot() == Created(nothing)
    {
      lastData, isPolling, stopped, paused := nothing, false, true, false;
      surroundings := Created(nothing);
    }

    method DoPoll()
      modifies this
      ensures Snapshot() == old(Snapshot()).(throttled := true)
    {
      surroundings := surroundings.(throttled := true);
    }

    method NextPoll()
      modifies this
      ensures Snapshot() == Scheduled(old(Snapshot()))
    {
      if !stopped && !paused {
        DoPoll();
      }
    }

    method SetPaused(paused: bool)
      modifies this
      ensures Snapshot() == Next(old(Snapshot()), Event<T>.SetPaused(paused))
    {
      this.paused := paused;
      if !this.paused {
        NextPoll();
      }
    }

    method Start()
      modifies this
      ensures Snapshot() == Next(old(Snapshot()), Event<T>.Start)
    {
      stopped := false;
      NextPoll();
    }

    method Stop()
      modifies this
      ensures Snapshot() == Next(old(Snapshot()), Event<T>.Stop)
    {
      stopped := true;
    }

    /** The throttled body: hands out a poll unless one is out or the poller is stopped. */
    method FireThrottled()
      requires Enabled(Snapshot(), Fire)
      modifies this
      ensures Snapshot() == Next(old(Snapshot()), Fire)
    {
      surroundings := surroundings.(throttled := false);
      if !isPolling && !stopped {
        isPolling := true;
        surroundings := surroundings.(outstanding := surroundings.outstanding + 1);
      }
    }

    method RunDeferred()
      requires Enabled(Snapshot(), Deferred)
      modifies this
      ensures Snapshot() == Next(old(Snapshot()), Deferred)
    {
      surroundings := surroundings.(deferred := surroundings.deferred - 1);
      NextPoll();
    }

    /** `changed` tells whether onChange is called with the data. */
    method PollSuccess(newData: T) returns (changed: bool)
      requires Enabled(Snapshot(), Success(newData))
      modifies this
      ensures Snapshot() == Next(old(Snapshot()), Success(newData))
      ensures Snapshot().reports == old(Snapshot().reports) + (if changed then [newData] else [])
    {
      surroundings := surroundings.(outstanding := surroundings.outstanding - 1);
      isPolling, changed := false, false;
      if !stopped {
        if newData != lastData {
          changed := true;
          surroundings := surroundings.(reports := surroundings.reports + [newData]);
        }
        lastData := newData;
        surroundings := surroundings.(accepted := surroundings.accepted + [newData], deferred :=
          surroundings.deferred + 1);
      }
    }

    method PollError()
      requires Enabled(Snapshot(), Event<T>.Error)
      modifies this
      ensures Snapshot() == Next(old(Snapshot()), Event<T>.Error)
    {
      surroundings := surroundings.(outstanding := surroundings.outstanding - 1, deferred := surroundings.deferred + 1);
      isPolling := false;
    }
  }
}
