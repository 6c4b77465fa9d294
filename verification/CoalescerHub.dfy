/** The registry of panes: every pane runs as if it were alone. */
module CoalescerHubs {
  import opened Options
  import opened Bytes
  import opened Coalescing

  /** A call on some sink; sinks are told apart by number. */
  datatype SinkCall = SinkCall(sink: nat, call: Call)

  datatype Entry = Entry(sink: nat, pane: Pane)

  /** The registered panes, and all calls made on sinks so far. */
  datatype Hub = Hub(panes: map<PaneId, Entry>, calls: seq<SinkCall>)

  datatype HubEvent =
    | Register(id: PaneId, sink: nat)
    | Remove(id: PaneId)
    | OnData(id: PaneId, now: int, bytes: seq<byte>)
    | OnEof(id: PaneId)
    | FlushDue(now: int)

  /** The calls made on one sink. */
  function CallsTo(calls: seq<SinkCall>, sink: nat): seq<Call> {
    if calls == [] then []
    else
      var last := calls[|calls| - 1];
      CallsTo(calls[..|calls| - 1], sink) + (if last.sink == sink then [last.call] else [])
  }

  function PaneAt(h: Hub, id: PaneId): Option<Pane> {
    if id in h.panes then Some(h.panes[id].pane) else None
  }

  /** What a hub event means to one pane. */
  function Local(event: HubEvent, id: PaneId): Option<Event> {
    match event
    case OnData(p, now, bytes) => if p == id then Some(Data(now, bytes)) else None
    case OnEof(p) => if p == id then Some(Eof) else None
    case FlushDue(now) => Some(Tick(now))
    case _ => None
  }

  function StepAt(limits: Limits, h: Hub, event: HubEvent, id: PaneId): Result {
    match Local(event, id)
    case None => Result(PaneAt(h, id), [])
    case Some(e) => Step(limits, PaneAt(h, id), e)
  }

  /** Different panes have different sinks. */
  predicate OwnSinks(panes: map<PaneId, Entry>) {
    forall p, q :: p in panes && q in panes && p != q ==> panes[p].sink != panes[q].sink
  }

  /** One event, whatever the order in which a flush visits the panes. */
  ghost predicate HubStep(limits: Limits, h: Hub, event: HubEvent, next: Hub) {
    match event
    case Register(id, sink) => next == Hub(h.panes[id := Entry(sink, FRESH)], h.calls)
    case Remove(id) => next == Hub(h.panes - {id}, h.calls)
    case _ =>
      && (forall id :: PaneAt(next, id) == StepAt(limits, h, event, id).pane)
      && (forall id :: id in next.panes ==> id in h.panes && next.panes[id].sink == h.panes[id].sink)
      && (forall id :: id in h.panes ==>
           CallsTo(next.calls, h.panes[id].sink) ==
           CallsTo(h.calls, h.panes[id].sink) + StepAt(limits, h, event, id).calls)
      && (forall sink :: (forall id :: id in h.panes ==> h.panes[id].sink != sink) ==>
           CallsTo(next.calls, sink) == CallsTo(h.calls, sink))
  }

  // ---------------------------------------------------------------- the registry

  /** The registry owns its entries: each is a value in the map, changed by replacing it. */
  class CoalescerHub {
    var panes: map<PaneId, Entry>
    /** What the sinks were told; the sinks themselves are outside the model. */
    var calls: seq<SinkCall>
    const limits: Limits

    ghost function View(): Hub
      reads this
    {
      Hub(panes, calls)
    }

    constructor (limits: Limits)
      ensures View() == Hub(map[], []) && this.limits == limits
    {
      panes, calls, this.limits := map[], [], limits;
    }

    method Register(id: PaneId, sink: nat)
      modifies this
      ensures HubStep(limits, old(View()), HubEvent.Register(id, sink), View())
    {
      panes := panes[id := Entry(sink, FRESH)];
    }

    method Remove(id: PaneId)
      modifies this
      ensures HubStep(limits, old(View()), HubEvent.Remove(id), View())
    {
      panes := panes - {id};
    }

    method OnData(id: PaneId, now: int, data: seq<byte>)
      modifies this
      ensures HubStep(limits, old(View()), HubEvent.OnData(id, now, data), View())
    {
      if id in panes {
        var entry := panes[id];
        panes := panes[id := entry.(pane := entry.pane.(buffer := Pushed(entry.pane.buffer, now, data)))];
      }
    }

    method OnEof(id: PaneId)
      modifies this
      ensures HubStep(limits, old(View()), HubEvent.OnEof(id), View())
    {
      if id in panes {
        var entry := panes[id];
        panes := panes[id := entry.(pane := entry.pane.(closed := true))];
      }
    }

    /** One visit of a flush: the batch if it is due, then the end if nothing is left. */
    method Visit(id: PaneId, now: int) returns (sent: nat, done: bool)
      requires id in panes
      modifies this
      ensures id in old(panes) && Visited(limits, old(View()), View(), id, now, done)
      ensures Batches(calls) == old(Batches(calls)) + sent
    {
      hide CallsTo, Batches;
      var entry := panes[id];
      sent := 0;
      if IsDue(limits, entry.pane.buffer, now) {
        OneMoreCall(calls, SinkCall(entry.sink, Batch(entry.pane.buffer.bytes)));
        calls := calls + [SinkCall(entry.sink, Batch(entry.pane.buffer.bytes))];
        entry := entry.(pane := entry.pane.(buffer := EMPTY));
        panes := panes[id := entry];
        sent := 1;
      }
      done := entry.pane.closed && entry.pane.buffer.bytes == [];
      if done {
        OneMoreCall(calls, SinkCall(entry.sink, Closed));
        calls := calls + [SinkCall(entry.sink, Closed)];
      }
    }

    /** Every pane is visited once, in whatever order; finished panes go. Returns how many batches were sent. */
    method FlushDue(now: int) returns (sent: nat)
      requires OwnSinks(panes)
      modifies this
      ensures HubStep(limits, old(View()), HubEvent.FlushDue(now), View())
      ensures Batches(calls) == old(Batches(calls)) + sent
    {
      hide Visited, Flushing, Batches, HubStep;
      sent := 0;
      ghost var start := View();
      var todo, finished := panes.Keys, {};
      FlushingAtStart(limits, start, now);
      while todo != {}
        invariant todo <= panes.Keys && panes.Keys == start.panes.Keys
        invariant Flushing(limits, start, View(), now, todo, finished)
        invariant Batches(calls) == Batches(start.calls) + sent
        decreases todo
      {
        var id :| id in todo;
        ghost var h := View();
        var n, done := Visit(id, now);
        VisitKeepsFlushing(limits, start, h, View(), now, todo, finished, id, done);
        sent := sent + n;
        if done { finished := finished + {id}; }
        todo := todo - {id};
      }
      FlushingAtEnd(limits, start, View(), now, finished);
      panes := panes - finished;
    }
  }

  /** What a visit does to a pane and to the calls on its sink; nothing else changes. */
  ghost predicate Visited(limits: Limits, h: Hub, next: Hub, id: PaneId, now: int, done: bool)
    requires id in h.panes
  {
    var entry := h.panes[id];
    var result := Step(limits, Some(entry.pane), Tick(now));
    && done == result.pane.None?
    && next.panes.Keys == h.panes.Keys
    && (forall p :: p in h.panes && p != id ==> next.panes[p] == h.panes[p])
    && next.panes[id].sink == entry.sink
    && (!done ==> Some(next.panes[id].pane) == result.pane)
    && CallsTo(next.calls, entry.sink) == CallsTo(h.calls, entry.sink) + result.calls
    && forall sink :: sink != entry.sink ==> CallsTo(next.calls, sink) == CallsTo(h.calls, sink)
  }

  /** In the middle of a flush: the panes in `todo` are untouched, the others have been visited. */
  ghost predicate Flushing(limits: Limits, start: Hub, h: Hub, now: int, todo: set<PaneId>, finished: set<PaneId>) {
    && OwnSinks(start.panes) && h.panes.Keys == start.panes.Keys
    && (forall id :: id in start.panes ==> h.panes[id].sink == start.panes[id].sink)
    && (forall id :: id in start.panes && id in todo ==>
         id !in finished && h.panes[id] == start.panes[id] &&
         CallsTo(h.calls, start.panes[id].sink) == CallsTo(start.calls, start.panes[id].sink))
    && (forall id :: id in start.panes && id !in todo ==>
         var result := Step(limits, Some(start.panes[id].pane), Tick(now));
         (id in finished <==> result.pane.None?) && (id !in finished ==> Some(h.panes[id].pane) == result.pane) &&
         CallsTo(h.calls, start.panes[id].sink) == CallsTo(start.calls, start.panes[id].sink) + result.calls)
    && (forall sink :: (forall id :: id in start.panes ==> start.panes[id].sink != sink) ==>
         CallsTo(h.calls, sink) == CallsTo(start.calls, sink))
  }

  lemma FlushingAtStart(limits: Limits, start: Hub, now: int)
    requires OwnSinks(start.panes)
    ensures Flushing(limits, start, start, now, start.panes.Keys, {})
  {
  }

  lemma VisitKeepsFlushing(limits: Limits, start: Hub, h: Hub, next: Hub, now: int, todo: set<PaneId>,
                           finished: set<PaneId>, id: PaneId, done: bool)
    requires Flushing(limits, start, h, now, todo, finished) && id in todo && id in start.panes && id in h.panes
    requires Visited(limits, h, next, id, now, done)
    ensures next.panes.Keys == start.panes.Keys
    ensures Flushing(limits, start, next, now, todo - {id}, if done then finished + {id} else finished)
  {
    hide Step, CallsTo;
  }

  /** Once every pane has been visited, dropping the finished ones completes the step. */
  lemma FlushingAtEnd(limits: Limits, start: Hub, h: Hub, now: int, finished: set<PaneId>)
    requires Flushing(limits, start, h, now, {}, finished)
    ensures HubStep(limits, start, FlushDue(now), Hub(h.panes - finished, h.calls))
  {
    hide Step, CallsTo;
    StepOfNone(limits, Tick(now));
  }

  /** The number of batches sent. */
  function Batches(calls: seq<SinkCall>): nat {
    if calls == [] then 0
    else Batches(calls[..|calls| - 1]) + (if calls[|calls| - 1].call.Batch? then 1 else 0)
  }

  lemma OneMoreCall(calls: seq<SinkCall>, c: SinkCall)
    ensures forall sink :: CallsTo(calls + [c], sink) == CallsTo(calls, sink) + if c.sink == sink then [c.call] else []
    ensures Batches(calls + [c]) == Batches(calls) + if c.call.Batch? then 1 else 0
  {
    assert (calls + [c])[..|calls|] == calls;
  }

  // ---------------------------------------------------------------- whole runs

  /** A run of the registry: the state before and after every event. */
  ghost predicate HubRun(limits: Limits, events: seq<HubEvent>, states: seq<Hub>) {
    && |states| == |events| + 1
    && forall i :: 0 <= i < |events| ==> HubStep(limits, states[i], events[i], states[i + 1])
  }

  /** What a run of the registry means to one pane. */
  function LocalEvents(events: seq<HubEvent>, id: PaneId): seq<Event> {
    if events == [] then []
    else
      var last := Local(events[|events| - 1], id);
      LocalEvents(events[..|events| - 1], id) + (if last.Some? then [last.value] else [])
  }

  /** The pane is neither registered again nor removed, and nobody else gets its sink. */
  predicate LeavesAlone(event: HubEvent, id: PaneId, sink: nat) {
    match event
    case Register(p, s) => p != id && s != sink
    case Remove(p) => p != id
    case _ => true
  }

  ghost predicate Tracks(limits: Limits, h: Hub, id: PaneId, sink: nat, earlier: seq<Call>, events: seq<Event>) {
    var r := FromStart(limits, events);
    && PaneAt(h, id) == r.pane && CallsTo(h.calls, sink) == earlier + r.calls
    && (forall p :: p in h.panes ==> (h.panes[p].sink == sink <==> p == id))
  }

  lemma {:induction false} StepTracks(limits: Limits, h: Hub, event: HubEvent, next: Hub, id: PaneId, sink: nat,
                                      earlier: seq<Call>, events: seq<Event>)
    requires HubStep(limits, h, event, next) && LeavesAlone(event, id, sink)
    requires Tracks(limits, h, id, sink, earlier, events)
    ensures Tracks(limits, next, id, sink, earlier,
                   events + match Local(event, id) case None => [] case Some(e) => [e])
  {
    hide Step, CallsTo, Run;
    match Local(event, id)
    case None => assert events + [] == events;
    case Some(e) =>
      RunSnoc(limits, Some(FRESH), events, e);
      if PaneAt(h, id).None? { StepOfNone(limits, e); }
  }

  /** Sinks are handed over for good, so panes keep sinks of their own. */
  lemma StepKeepsOwnSinks(limits: Limits, h: Hub, event: HubEvent, next: Hub)
    requires OwnSinks(h.panes) && HubStep(limits, h, event, next)
    requires event.Register? ==> forall p :: p in h.panes ==> h.panes[p].sink != event.sink
    ensures OwnSinks(next.panes)
  {
  }

  lemma StepOfNone(limits: Limits, e: Event)
    ensures Step(limits, None, e) == Result(None, [])
  {
  }

  /** From its registration on, a pane and its sink see exactly the run of that pane alone. */
  lemma {:induction false} PaneRunsAlone(limits: Limits, events: seq<HubEvent>, states: seq<Hub>, id: PaneId, sink: nat)
    requires HubRun(limits, events, states) && events != [] && events[0] == Register(id, sink)
    requires OwnSinks(states[0].panes)
    requires forall p :: p in states[0].panes && p != id ==> states[0].panes[p].sink != sink
    requires forall i :: 0 < i < |events| ==> LeavesAlone(events[i], id, sink)
    ensures Tracks(limits, states[|events|], id, sink, CallsTo(states[0].calls, sink), LocalEvents(events[1..], id))
    decreases |events|
  {
    var n := |events| - 1;
    var earlier := CallsTo(states[0].calls, sink);
    assert HubStep(limits, states[n], events[n], states[n + 1]);
    if n == 0 {
      assert earlier + [] == earlier;
      assert events[1..] == [];
    } else {
      assert HubRun(limits, events[..n], states[..n + 1]);
      PaneRunsAlone(limits, events[..n], states[..n + 1], id, sink);
      StepTracks(limits, states[n], events[n], states[n + 1], id, sink, earlier, LocalEvents(events[..n][1..], id));
      assert events[1..][..n - 1] == events[..n][1..];
      var front, last := LocalEvents(events[..n][1..], id), Local(events[n], id);
      assert front + [] == front;
    }
  }

  // What the registry is told of one pane, without the model of that pane.

  /** All bytes read from the pane's terminal. */
  function ReadFrom(events: seq<HubEvent>, id: PaneId): seq<byte> {
    if events == [] then []
    else
      var last := events[|events| - 1];
      ReadFrom(events[..|events| - 1], id) + (if last.OnData? && last.id == id then last.bytes else [])
  }

  /** Its reader stops at the end of the stream. */
  predicate StopsAtEof(events: seq<HubEvent>, id: PaneId) {
    forall i, j :: 0 <= i < j < |events| && events[i] == OnEof(id) ==> !(events[j].OnData? && events[j].id == id)
  }

  lemma {:induction false} LocalSaysTheSame(events: seq<HubEvent>, id: PaneId)
    ensures Read(LocalEvents(events, id)) == ReadFrom(events, id)
    ensures SawEof(LocalEvents(events, id)) <==> OnEof(id) in events
    ensures StopsAtEof(events, id) ==> EndsWithEof(LocalEvents(events, id))
  {
    hide SawEof, EndsWithEof;
    if events == [] {
      NothingSaid();
    } else {
      var front, last := events[..|events| - 1], events[|events| - 1];
      assert events == front + [last];
      LocalSaysTheSame(front, id);
      if StopsAtEof(events, id) { StopsInFront(front, last, id); }
      var local := LocalEvents(front, id);
      match Local(last, id)
      case None => assert local + [] == local;
      case Some(e) =>
        ReadSnoc(local, e);
        OneMoreSaid(local, e);
    }
  }

  lemma NothingSaid()
    ensures !SawEof([]) && EndsWithEof([])
  {
  }

  lemma StopsInFront(front: seq<HubEvent>, last: HubEvent, id: PaneId)
    requires StopsAtEof(front + [last], id)
    ensures StopsAtEof(front, id)
    ensures OnEof(id) in front ==> !(last.OnData? && last.id == id)
  {
    var all := front + [last];
    assert forall i :: 0 <= i < |front| ==> all[i] == front[i];
    assert all[|front|] == last;
  }

  lemma OneMoreSaid(local: seq<Event>, e: Event)
    ensures SawEof(local + [e]) <==> SawEof(local) || e.Eof?
    ensures EndsWithEof(local) && !(SawEof(local) && e.Data?) ==> EndsWithEof(local + [e])
  {
    var all := local + [e];
    assert forall i :: 0 <= i < |local| ==> all[i] == local[i];
    assert all[|local|] == e;
  }

  /** A run in which the pane is registered with this sink first, and left alone afterwards. */
  ghost predicate OwnRun(limits: Limits, events: seq<HubEvent>, states: seq<Hub>, id: PaneId, sink: nat) {
    && HubRun(limits, events, states) && events != [] && events[0] == Register(id, sink)
    && OwnSinks(states[0].panes) && (forall p :: p in states[0].panes && p != id ==> states[0].panes[p].sink != sink)
    && (forall i :: 0 < i < |events| ==> LeavesAlone(events[i], id, sink))
    && CallsTo(states[0].calls, sink) == [] && StopsAtEof(events[1..], id)
  }

  /**
   * For any interleaving with other panes and flushes: the bytes the sink got, and those still held, are the bytes
   * read, in order; the pane is gone exactly when its sink was told of the end, which is after the end and with nothing
   * held.
   */
  lemma SinkGetsWhatWasRead(limits: Limits, events: seq<HubEvent>, states: seq<Hub>, id: PaneId, sink: nat)
    requires OwnRun(limits, events, states, id, sink)
    ensures var end, read := states[|events|], ReadFrom(events[1..], id);
            var heard := CallsTo(end.calls, sink);
            if id in end.panes then
              Sent(heard) + end.panes[id].pane.buffer.bytes == read && Closed !in heard
            else
              Sent(heard) == read && OnEof(id) in events && heard != [] && heard[|heard| - 1] == Closed &&
              Closed !in heard[..|heard| - 1]
  {
    hide HubStep, CallsTo, FromStart, EndsWithEof, SawEof, Sent, Read, ReadFrom, LocalEvents, LeavesAlone;
    PaneRunsAlone(limits, events, states, id, sink);
    var local := LocalEvents(events[1..], id);
    LocalSaysTheSame(events[1..], id);
    NothingIsLost(limits, local);
    assert [] + FromStart(limits, local).calls == FromStart(limits, local).calls;
    assert OnEof(id) in events[1..] ==> OnEof(id) in events;
  }

  lemma {:induction false} LocalReads(events: seq<HubEvent>, id: PaneId, last: int)
    requires forall e :: e in events && e.OnData? && e.id == id ==> e.now <= last
    ensures var local := LocalEvents(events, id);
            forall i :: 0 <= i < |local| && local[i].Data? ==> local[i].now <= last
  {
    if events != [] {
      var front, e := events[..|events| - 1], events[|events| - 1];
      assert e in events && forall x :: x in front ==> x in events;
      LocalReads(front, id, last);
      var said := Local(e, id);
      assert said.Some? && said.value.Data? ==> said.value.now <= last;
      assert LocalEvents(events, id) == LocalEvents(front, id) + if said.Some? then [said.value] else [];
      hide LocalEvents, Local;
    }
  }

  lemma LocalOfFlush(events: seq<HubEvent>, id: PaneId, now: int)
    requires events != []
    ensures var all := events + [FlushDue(now)];
            && LocalEvents(all[1..], id) == LocalEvents(events[1..], id) + [Tick(now)]
            && (StopsAtEof(all[1..], id) ==> StopsAtEof(events[1..], id))
    ensures OnEof(id) in events && events[0].Register? ==> OnEof(id) in events[1..]
    ensures forall e :: e in events[1..] ==> e in events
  {
    var all, later := events + [FlushDue(now)], events[1..];
    assert all[1..] == later + [FlushDue(now)] && (later + [FlushDue(now)])[..|later|] == later;
    assert events == [events[0]] + later;
    if StopsAtEof(all[1..], id) { StopsInFront(later, FlushDue(now), id); }
  }

  /** Once its reader has ended and a window has passed since its last read, a flush delivers all of it and says so. */
  lemma EndReachesSink(limits: Limits, events: seq<HubEvent>, states: seq<Hub>, id: PaneId, sink: nat, now: int,
                       last: int)
    requires OwnRun(limits, events + [FlushDue(now)], states, id, sink) && events != []
    requires OnEof(id) in events && now - last >= limits.window
    requires forall e :: e in events && e.OnData? && e.id == id ==> e.now <= last
    ensures var end := states[|states| - 1];
            var heard := CallsTo(end.calls, sink);
            id !in end.panes && Sent(heard) == ReadFrom(events[1..], id) && heard != [] &&
            heard[|heard| - 1] == Closed
  {
    hide HubRun, CallsTo, FromStart, EndsWithEof, SawEof, Sent, Read, ReadFrom, LeavesAlone, LocalEvents, StopsAtEof;
    var local := LocalEvents(events[1..], id);
    PaneRunsAlone(limits, events + [FlushDue(now)], states, id, sink);
    RunsToTheEnd(limits, events + [FlushDue(now)], states);
    LocalOfFlush(events, id, now);
    LocalSaysTheSame(events[1..], id);
    LocalReads(events[1..], id, last);
    EndIsTold(limits, local, now, last);
    var r := FromStart(limits, local + [Tick(now)]);
    assert [] + r.calls == r.calls;
  }

  lemma RunsToTheEnd(limits: Limits, events: seq<HubEvent>, states: seq<Hub>)
    requires HubRun(limits, events, states)
    ensures |states| - 1 == |events|
  {
  }

  /** A sink whose pane is gone is never called again. */
  lemma {:induction false} UnownedSinkIsSilent(limits: Limits, events: seq<HubEvent>, states: seq<Hub>, sink: nat)
    requires HubRun(limits, events, states)
    requires forall id :: id in states[0].panes ==> states[0].panes[id].sink != sink
    requires forall i :: 0 <= i < |events| && events[i].Register? ==> events[i].sink != sink
    ensures CallsTo(states[|events|].calls, sink) == CallsTo(states[0].calls, sink)
    ensures forall id :: id in states[|events|].panes ==> states[|events|].panes[id].sink != sink
    decreases |events|
  {
    hide CallsTo;
    var n := |events| - 1;
    if n >= 0 {
      assert HubStep(limits, states[n], events[n], states[n + 1]);
      assert HubRun(limits, events[..n], states[..n + 1]);
      UnownedSinkIsSilent(limits, events[..n], states[..n + 1], sink);
    }
  }
}
