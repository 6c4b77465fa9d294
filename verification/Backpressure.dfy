/** Backpressure: counting the bytes the terminal has not drawn yet, and pausing the reader with hysteresis. */
module Backpressure {

  datatype Hook = Pause | Resume

  /** The counter, the flag, and the hooks called so far. */
  datatype Flow = Flow(outstanding: nat, paused: bool, hooks: seq<Hook>)

  datatype Event = Written(n: nat) | Flushed(n: nat)

  function Step(high: nat, low: nat, f: Flow, e: Event): Flow {
    match e
    case Written(n) =>
      var outstanding := f.outstanding + n;
      if !f.paused && outstanding >= high then Flow(outstanding, true, f.hooks + [Pause])
      else f.(outstanding := outstanding)
    case Flushed(n) =>
      var outstanding := if f.outstanding < n then 0 else f.outstanding - n;
      if f.paused && outstanding <= low then Flow(outstanding, false, f.hooks + [Resume])
      else f.(outstanding := outstanding)
  }

  function Run(high: nat, low: nat, events: seq<Event>): Flow {
    if events == [] then Flow(0, false, [])
    else Step(high, low, Run(high, low, events[..|events| - 1]), events[|events| - 1])
  }

  class BackpressureController {
    var outstanding: nat
    var paused: bool
    const high: nat
    const low: nat
    /** The calls made on the hooks, which are outside the model. */
    var hooks: seq<Hook>
    /** The events so far. */
    ghost var history: seq<Event>

    ghost function View(): Flow
      reads this
    {
      Flow(outstanding, paused, hooks)
    }

    ghost predicate Valid()
      reads this
    {
      View() == Run(high, low, history)
    }

    constructor (high: nat := 1048576, low: nat := 262144)
      ensures Valid() && history == [] && this.high == high && this.low == low
    {
      outstanding, paused, this.high, this.low, hooks, history := 0, false, high, low, [], [];
    }

    method OnWritten(n: nat)
      requires Valid()
      modifies this
      ensures Valid() && history == old(history) + [Written(n)]
      ensures View() == Step(high, low, old(View()), Written(n))
    {
      history := history + [Written(n)];
      outstanding := outstanding + n;
      if !paused && outstanding >= high {
        paused := true;
        hooks := hooks + [Pause];
      }
      assert history[..|history| - 1] == old(history);
    }

    method OnFlushed(n: nat)
      requires Valid()
      modifies this
      ensures Valid() && history == old(history) + [Flushed(n)]
      ensures View() == Step(high, low, old(View()), Flushed(n))
    {
      history := history + [Flushed(n)];
      outstanding := if outstanding < n then 0 else outstanding - n;
      if paused && outstanding <= low {
        paused := false;
        hooks := hooks + [Resume];
      }
      assert history[..|history| - 1] == old(history);
    }
  }

  // ---------------------------------------------------------------- hysteresis

  /** Pause, resume, pause, ... */
  predicate Alternates(hooks: seq<Hook>) {
    forall i :: 0 <= i < |hooks| ==> hooks[i] == if i % 2 == 0 then Pause else Resume
  }

  /** Over every run the hooks alternate, and the flag tells the last one. */
  lemma {:induction false} HooksAlternate(high: nat, low: nat, events: seq<Event>)
    ensures var f := Run(high, low, events); Alternates(f.hooks) && (f.paused <==> |f.hooks| % 2 == 1)
  {
    if events != [] { HooksAlternate(high, low, events[..|events| - 1]); }
  }

  /** Unpaused means below the high mark, paused above the low one; so with nothing outstanding nothing is paused. */
  lemma {:induction false} MarksHold(high: nat, low: nat, events: seq<Event>)
    requires low < high
    ensures var f := Run(high, low, events);
            (!f.paused ==> f.outstanding < high) && (f.paused ==> f.outstanding > low) &&
            (f.outstanding == 0 ==> !f.paused)
  {
    if events != [] { MarksHold(high, low, events[..|events| - 1]); }
  }

  /** Event `i` is a write that brings the counter to the high mark. */
  predicate Crosses(high: nat, low: nat, events: seq<Event>, i: nat)
    requires i < |events|
  {
    events[i].Written? && Run(high, low, events[..i + 1]).outstanding >= high
  }

  /** Event `i` is a flush that brings the counter to the low mark. */
  predicate Drains(high: nat, low: nat, events: seq<Event>, i: nat)
    requires i < |events|
  {
    events[i].Flushed? && Run(high, low, events[..i + 1]).outstanding <= low
  }

  /** Event `i` reaches the high mark and no flush has reached the low mark since. */
  predicate CrossedLast(high: nat, low: nat, events: seq<Event>, i: nat)
    requires i < |events|
  {
    Crosses(high, low, events, i) && forall j :: i < j < |events| ==> !Drains(high, low, events, j)
  }

  ghost predicate CrossedSinceDrained(high: nat, low: nat, events: seq<Event>) {
    exists i :: 0 <= i < |events| && CrossedLast(high, low, events, i)
  }

  lemma SameInFront(high: nat, low: nat, events: seq<Event>, i: nat)
    requires i < |events| - 1
    ensures Crosses(high, low, events[..|events| - 1], i) == Crosses(high, low, events, i)
    ensures Drains(high, low, events[..|events| - 1], i) == Drains(high, low, events, i)
  {
    assert events[..|events| - 1][..i + 1] == events[..i + 1];
  }

  lemma FlagStep(high: nat, low: nat, events: seq<Event>)
    requires events != []
    ensures var last, front := |events| - 1, events[..|events| - 1];
            Run(high, low, events).paused <==>
            Crosses(high, low, events, last) || (Run(high, low, front).paused && !Drains(high, low, events, last))
  {
    assert events[..|events| - 1 + 1] == events;
  }

  lemma CrossedLastStep(high: nat, low: nat, events: seq<Event>, i: nat)
    requires i < |events|
    ensures var last := |events| - 1;
            CrossedLast(high, low, events, i) ==
            if i == last then Crosses(high, low, events, last)
            else CrossedLast(high, low, events[..last], i) && !Drains(high, low, events, last)
  {
    var last := |events| - 1;
    var front := events[..last];
    forall j | 0 <= j < last
      ensures Crosses(high, low, front, j) == Crosses(high, low, events, j)
      ensures Drains(high, low, front, j) == Drains(high, low, events, j)
    {
      SameInFront(high, low, events, j);
    }
    hide Crosses, Drains;
  }

  lemma CrossedStep(high: nat, low: nat, events: seq<Event>)
    requires events != []
    ensures var last, front := |events| - 1, events[..|events| - 1];
            CrossedSinceDrained(high, low, events) <==>
            Crosses(high, low, events, last) ||
            (CrossedSinceDrained(high, low, front) && !Drains(high, low, events, last))
  {
    hide Crosses, Drains, CrossedLast;
    forall i | 0 <= i < |events|
      ensures var last := |events| - 1;
              CrossedLast(high, low, events, i) ==
              if i == last then Crosses(high, low, events, last)
              else CrossedLast(high, low, events[..last], i) && !Drains(high, low, events, last)
    {
      CrossedLastStep(high, low, events, i);
    }
    var last, front := |events| - 1, events[..|events| - 1];
    if Crosses(high, low, events, last) {
      assert CrossedLast(high, low, events, last);
    }
    if CrossedSinceDrained(high, low, front) && !Drains(high, low, events, last) {
      var i :| 0 <= i < |front| && CrossedLast(high, low, front, i);
      assert CrossedLast(high, low, events, i);
    }
    if CrossedSinceDrained(high, low, events) && !Crosses(high, low, events, last) {
      var i :| 0 <= i < |events| && CrossedLast(high, low, events, i);
      assert CrossedLast(high, low, front, i);
    }
  }

  /** Over every run, paused means: some write reached the high mark, and no flush has reached the low mark since. */
  lemma {:induction false} PausedExactlyWhen(high: nat, low: nat, events: seq<Event>)
    ensures Run(high, low, events).paused <==> CrossedSinceDrained(high, low, events)
  {
    if events != [] {
      PausedExactlyWhen(high, low, events[..|events| - 1]);
      hide CrossedSinceDrained;
      FlagStep(high, low, events);
      CrossedStep(high, low, events);
    }
  }

  /** A hook is called exactly when the flag changes, and then it is the one for the new flag. */
  lemma HooksTellChanges(high: nat, low: nat, events: seq<Event>, event: Event)
    ensures var before, after := Run(high, low, events), Run(high, low, events + [event]);
            after.hooks == before.hooks +
              if after.paused == before.paused then [] else if after.paused then [Pause] else [Resume]
  {
    assert (events + [event])[..|events|] == events;
  }

  function Steps(high: nat, low: nat, f: Flow, events: seq<Event>): (r: Flow)
    ensures |r.hooks| >= |f.hooks|
    decreases |events|
  {
    if events == [] then f else Steps(high, low, Step(high, low, f, events[0]), events[1..])
  }

  function Flushes(events: seq<Event>): nat {
    if events == [] then 0 else (if events[0].Flushed? then events[0].n else 0) + Flushes(events[1..])
  }

  /** A pause lasts until everything above the low mark has been flushed. */
  lemma {:induction false} ResumeNeedsFlushes(high: nat, low: nat, f: Flow, events: seq<Event>)
    requires f.paused && f.outstanding > low
    requires |Steps(high, low, f, events).hooks| > |f.hooks|
    ensures Flushes(events) >= f.outstanding - low
    decreases |events|
  {
    if events != [] {
      var g := Step(high, low, f, events[0]);
      if g.paused { ResumeNeedsFlushes(high, low, g, events[1..]); }
    }
  }

  lemma {:induction false} StepsGoOn(high: nat, low: nat, before: seq<Event>, events: seq<Event>)
    ensures Steps(high, low, Run(high, low, before), events) == Run(high, low, before + events)
    decreases |events|
  {
    if events == [] {
      assert before + events == before;
    } else {
      var next := before + [events[0]];
      assert next[..|next| - 1] == before;
      StepsGoOn(high, low, next, events[1..]);
      assert next + events[1..] == before + events;
    }
  }

  /** From the write that pauses to the resume, at least the distance of the marks is flushed. */
  lemma PauseIsWorthItsDistance(high: nat, low: nat, before: seq<Event>, write: Event, after: seq<Event>)
    requires low < high
    requires !Run(high, low, before).paused && Run(high, low, before + [write]).paused
    requires !Run(high, low, before + [write] + after).paused
    ensures Flushes(after) >= high - low
  {
    var paused := before + [write];
    assert paused[..|before|] == before;
    StepsGoOn(high, low, paused, after);
    HooksAlternate(high, low, paused);
    HooksAlternate(high, low, paused + after);
    ResumeNeedsFlushes(high, low, Run(high, low, paused), after);
  }

  // ---------------------------------------------------------------- the counter

  function SumWritten(events: seq<Event>): nat {
    if events == [] then 0
    else SumWritten(events[..|events| - 1]) + (match events[|events| - 1] case Written(n) => n case Flushed(_) => 0)
  }

  function SumFlushed(events: seq<Event>): nat {
    if events == [] then 0
    else SumFlushed(events[..|events| - 1]) + (match events[|events| - 1] case Written(_) => 0 case Flushed(n) => n)
  }

  /** No flush is reported before the write it belongs to. */
  predicate FlushesFollowWrites(events: seq<Event>) {
    forall i :: 0 <= i <= |events| ==> SumFlushed(events[..i]) <= SumWritten(events[..i])
  }

  lemma PrefixesFollow(events: seq<Event>)
    requires events != []
    ensures FlushesFollowWrites(events) <==>
            FlushesFollowWrites(events[..|events| - 1]) && SumFlushed(events) <= SumWritten(events)
  {
    hide SumWritten, SumFlushed;
    var front := events[..|events| - 1];
    forall i | 0 <= i <= |front| ensures front[..i] == events[..i] {}
    assert events[..|events|] == events;
    if FlushesFollowWrites(events) {
      forall i | 0 <= i <= |front| ensures SumFlushed(front[..i]) <= SumWritten(front[..i]) {
        assert front[..i] == events[..i];
      }
    }
    if FlushesFollowWrites(front) && SumFlushed(events) <= SumWritten(events) {
      forall i | 0 <= i <= |events| ensures SumFlushed(events[..i]) <= SumWritten(events[..i]) {
        if i <= |front| { assert events[..i] == front[..i]; }
      }
    }
  }

  /** The counter is what was written and not flushed exactly when no flush ran ahead; it is never too low. */
  lemma {:induction false} CounterIsExactExactlyWhen(high: nat, low: nat, events: seq<Event>)
    ensures Run(high, low, events).outstanding as int >= SumWritten(events) - SumFlushed(events)
    ensures Run(high, low, events).outstanding as int == SumWritten(events) - SumFlushed(events) <==>
            FlushesFollowWrites(events)
  {
    if events != [] {
      PrefixesFollow(events);
      CounterIsExactExactlyWhen(high, low, events[..|events| - 1]);
    }
  }

  /** What was written less what was flushed over a stretch of events. */
  function Net(events: seq<Event>): int {
    SumWritten(events) - SumFlushed(events)
  }

  function Change(event: Event): int {
    match event case Written(n) => n case Flushed(n) => 0 - n
  }

  lemma NetSnoc(events: seq<Event>, from: nat)
    requires from < |events|
    ensures Net(events[from..]) == Net(events[..|events| - 1][from..]) + Change(events[|events| - 1])
  {
    assert events[from..][..|events[from..]| - 1] == events[..|events| - 1][from..];
  }

  /** Over every run the counter is the largest backlog that any last stretch of the events leaves. */
  lemma {:induction false} CounterIsLargestBacklog(high: nat, low: nat, events: seq<Event>)
    ensures forall i :: 0 <= i <= |events| ==> Net(events[i..]) <= Run(high, low, events).outstanding
    ensures exists i :: 0 <= i <= |events| && Net(events[i..]) == Run(high, low, events).outstanding
  {
    hide Net;
    var now := Run(high, low, events).outstanding;
    NothingIsBacklog(events);
    if events != [] {
      var front, last := events[..|events| - 1], events[|events| - 1];
      CounterIsLargestBacklog(high, low, front);
      var was := Run(high, low, front).outstanding;
      assert now == if last.Written? then was + last.n else if was < last.n then 0 else was - last.n;
      forall i | 0 <= i < |events|
        ensures Net(events[i..]) == Net(front[i..]) + Change(last)
      {
        NetSnoc(events, i);
      }
      var i :| 0 <= i <= |front| && Net(front[i..]) == was;
      assert Net(events[i..]) == was + Change(last);
    }
  }

  lemma NothingIsBacklog(events: seq<Event>)
    ensures Net(events[|events|..]) == 0
  {
  }

  /** Once everything is drawn, in order, the reader runs. */
  lemma DrainedMeansRunning(high: nat, low: nat, events: seq<Event>)
    requires low < high && FlushesFollowWrites(events) && SumWritten(events) == SumFlushed(events)
    ensures !Run(high, low, events).paused
  {
    CounterIsExactExactlyWhen(high, low, events);
    MarksHold(high, low, events);
  }

  /** The order of a write and its flush matters: reported the other way round, the reader stays paused for good. */
  lemma FlushBeforeWriteStaysPaused(high: nat, low: nat)
    requires low < high
    ensures var events := [Flushed(high), Written(high)];
            SumWritten(events) == SumFlushed(events) && Run(high, low, events).paused
  {
    var events := [Flushed(high), Written(high)];
    var first := [Flushed(high)];
    assert events[..|events| - 1] == first && first[..|first| - 1] == [];
    assert SumFlushed([]) == 0;
    assert SumWritten(first) == 0;
    assert SumFlushed(first) == high;
    assert Run(high, low, first) == Flow(0, false, []);
  }
}
