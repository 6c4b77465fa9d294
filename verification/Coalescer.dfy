/** Per-pane output buffering: bursts of reads leave as few batches, in order and in time. */
module Coalescing {
  import opened Options
  import opened Bytes

  type PaneId = string

  /** What a coalescer holds: the bytes of the current batch, and when the batch began. */
  datatype Buffer = Buffer(bytes: seq<byte>, first: Option<int>)

  /** The flush rule: a window in clock units, and the size that flushes early. */
  datatype Limits = Limits(window: nat, sizeCap: nat)

  /** Time since `start`, never negative. */
  function Elapsed(now: int, start: int): nat {
    if now <= start then 0 else now - start
  }

  predicate IsDue(limits: Limits, b: Buffer, now: int) {
    b.bytes != [] && (|b.bytes| >= limits.sizeCap || (b.first.Some? && Elapsed(now, b.first.value) >= limits.window))
  }

  function Pushed(b: Buffer, now: int, data: seq<byte>): Buffer {
    Buffer(b.bytes + data, if b.bytes == [] then Some(now) else b.first)
  }

  const EMPTY := Buffer([], None)

  class Coalescer {
    var buf: seq<byte>
    var firstPush: Option<int>
    const limits: Limits

    ghost function Contents(): Buffer
      reads this
    {
      Buffer(buf, firstPush)
    }

    constructor (limits: Limits)
      ensures Contents() == EMPTY && this.limits == limits
    {
      buf, firstPush, this.limits := [], None, limits;
    }

    method Push(now: int, data: seq<byte>)
      modifies this
      ensures Contents() == Pushed(old(Contents()), now, data)
    {
      if buf == [] {
        firstPush := Some(now);
      }
      buf := buf + data;
    }

    predicate IsFlushDue(now: int): (due: bool)
      reads this
      ensures due == IsDue(limits, Contents(), now)
    {
      if buf == [] then false
      else if |buf| >= limits.sizeCap then true
      else firstPush.Some? && Elapsed(now, firstPush.value) >= limits.window
    }

    method Take() returns (batch: seq<byte>)
      modifies this
      ensures batch == old(buf) && Contents() == EMPTY
    {
      batch, buf, firstPush := buf, [], None;
    }
  }

  // ---------------------------------------------------------------- one pane

  /** A registered pane: its buffer, and whether its reader reached the end. */
  datatype Pane = Pane(buffer: Buffer, closed: bool)

  datatype Event = Data(now: int, bytes: seq<byte>) | Eof | Tick(now: int)

  /** A call on the pane's sink. */
  datatype Call = Batch(bytes: seq<byte>) | Closed

  /** The pane after the event, `None` once it is finished, and the calls made on its sink. */
  datatype Result = Result(pane: Option<Pane>, calls: seq<Call>)

  const FRESH := Pane(EMPTY, false)

  function Step(limits: Limits, pane: Option<Pane>, event: Event): Result {
    match pane
    case None => Result(None, [])
    case Some(p) =>
      match event
      case Data(now, bytes) => Result(Some(p.(buffer := Pushed(p.buffer, now, bytes))), [])
      case Eof => Result(Some(p.(closed := true)), [])
      case Tick(now) =>
        var due := IsDue(limits, p.buffer, now);
        var left := if due then EMPTY else p.buffer;
        var batch := if due then [Batch(p.buffer.bytes)] else [];
        if p.closed && left.bytes == [] then Result(None, batch + [Closed])
        else Result(Some(p.(buffer := left)), batch)
  }

  function Run(limits: Limits, pane: Option<Pane>, events: seq<Event>): Result
    decreases |events|
  {
    if events == [] then Result(pane, [])
    else
      var before := Run(limits, pane, events[..|events| - 1]);
      var last := Step(limits, before.pane, events[|events| - 1]);
      Result(last.pane, before.calls + last.calls)
  }

  /** What a pane that has just been registered becomes. */
  function FromStart(limits: Limits, events: seq<Event>): Result {
    Run(limits, Some(FRESH), events)
  }

  lemma RunSnoc(limits: Limits, pane: Option<Pane>, events: seq<Event>, event: Event)
    ensures var before := Run(limits, pane, events);
            var last := Step(limits, before.pane, event);
            Run(limits, pane, events + [event]) == Result(last.pane, before.calls + last.calls)
  {
    assert (events + [event])[..|events|] == events;
  }

  // ---------------------------------------------------------------- every byte, in order

  /** All bytes read. */
  function Read(events: seq<Event>): seq<byte> {
    if events == [] then []
    else
      var last := events[|events| - 1];
      Read(events[..|events| - 1]) + (if last.Data? then last.bytes else [])
  }

  /** All bytes handed to the sink. */
  function Sent(calls: seq<Call>): seq<byte> {
    if calls == [] then []
    else
      var last := calls[|calls| - 1];
      Sent(calls[..|calls| - 1]) + (if last.Batch? then last.bytes else [])
  }

  lemma SentSnoc(calls: seq<Call>, call: Call)
    ensures Sent(calls + [call]) == Sent(calls) + if call.Batch? then call.bytes else []
  {
    assert (calls + [call])[..|calls|] == calls;
  }

  /** What a tick adds to a sink. */
  lemma SentByStep(limits: Limits, pane: Option<Pane>, event: Event, calls: seq<Call>)
    ensures var more := Step(limits, pane, event).calls;
            Sent(calls + more) == Sent(calls) +
              if more != [] && more[0].Batch? then more[0].bytes else []
  {
    var more := Step(limits, pane, event).calls;
    if more == [] {
      assert calls + more == calls;
    } else if |more| == 1 {
      SentSnoc(calls, more[0]);
      assert calls + more == calls + [more[0]];
    } else {
      SentSnoc(calls, more[0]);
      SentSnoc(calls + [more[0]], more[1]);
      assert calls + more == calls + [more[0]] + [more[1]];
    }
  }

  /** The reader stops at the end: no data comes after it. */
  predicate EndsWithEof(events: seq<Event>) {
    forall i, j :: 0 <= i < j < |events| && events[i].Eof? ==> !events[j].Data?
  }

  predicate SawEof(events: seq<Event>) {
    exists i :: 0 <= i < |events| && events[i].Eof?
  }

  /** The state of a pane agrees with what was read and what was sent. */
  predicate Accounted(events: seq<Event>, r: Result) {
    match r.pane
    case Some(p) =>
      && Sent(r.calls) + p.buffer.bytes == Read(events)
      && (p.closed <==> SawEof(events))
      && (p.buffer.bytes != [] ==> p.buffer.first.Some?)
      && Closed !in r.calls
    case None =>
      && Sent(r.calls) == Read(events)
      && SawEof(events)
      && r.calls != [] && r.calls[|r.calls| - 1] == Closed && Closed !in r.calls[..|r.calls| - 1]
  }

  lemma NoDataAfterEof(events: seq<Event>, event: Event)
    requires EndsWithEof(events + [event])
    ensures EndsWithEof(events)
    ensures SawEof(events + [event]) <==> SawEof(events) || event.Eof?
    ensures SawEof(events) ==> !event.Data?
  {
    var all := events + [event];
    assert forall i :: 0 <= i < |events| ==> all[i] == events[i];
    assert all[|events|] == event;
  }

  lemma ReadSnoc(events: seq<Event>, event: Event)
    ensures Read(events + [event]) == Read(events) + if event.Data? then event.bytes else []
  {
    assert (events + [event])[..|events|] == events;
  }

  lemma TickAccounts(limits: Limits, events: seq<Event>, r: Result, event: Event)
    requires Accounted(events, r) && event.Tick?
    requires Read(events + [event]) == Read(events) && (SawEof(events + [event]) <==> SawEof(events))
    ensures var last := Step(limits, r.pane, event);
            Accounted(events + [event], Result(last.pane, r.calls + last.calls))
  {
    hide SawEof, Sent, Read, IsDue;
    if r.pane.None? {
      assert r.calls + [] == r.calls;
    } else {
      var p := r.pane.value;
      var sent := if IsDue(limits, p.buffer, event.now) then [Batch(p.buffer.bytes)] else [];
      var held := if IsDue(limits, p.buffer, event.now) then [] else p.buffer.bytes;
      SentSnoc(r.calls, Batch(p.buffer.bytes));
      SentSnoc(r.calls + sent, Closed);
      assert r.calls + [] == r.calls;
      assert Sent(r.calls + sent) + held == Read(events);
      assert Closed !in r.calls + sent;
      assert (r.calls + sent + [Closed])[..|r.calls + sent|] == r.calls + sent;
      assert r.calls + (sent + [Closed]) == r.calls + sent + [Closed];
    }
  }

  lemma StepAccounts(limits: Limits, events: seq<Event>, r: Result, event: Event)
    requires Accounted(events, r) && EndsWithEof(events + [event])
    ensures var last := Step(limits, r.pane, event);
            Accounted(events + [event], Result(last.pane, r.calls + last.calls))
  {
    hide EndsWithEof, SawEof, Sent, IsDue, Read;
    NoDataAfterEof(events, event);
    ReadSnoc(events, event);
    if event.Tick? {
      hide Accounted, Step;
      TickAccounts(limits, events, r, event);
    } else {
      assert r.calls + [] == r.calls;
    }
  }

  /** Whatever the order of reads, the end and the ticks: nothing is lost, repeated or reordered. */
  lemma {:induction false} NothingIsLost(limits: Limits, events: seq<Event>)
    requires EndsWithEof(events)
    ensures Accounted(events, FromStart(limits, events))
  {
    if events == [] {
    } else {
      var front, event := events[..|events| - 1], events[|events| - 1];
      assert events == front + [event];
      NoDataAfterEof(front, event);
      NothingIsLost(limits, front);
      RunSnoc(limits, Some(FRESH), front, event);
      hide Accounted, Step, EndsWithEof;
      StepAccounts(limits, front, FromStart(limits, front), event);
    }
  }

  /** No batch is empty. */
  lemma {:induction false} NoBatchIsEmpty(limits: Limits, events: seq<Event>)
    ensures forall call :: call in FromStart(limits, events).calls && call.Batch? ==> call.bytes != []
  {
    if events != [] { NoBatchIsEmpty(limits, events[..|events| - 1]); }
  }

  /** The sink is told of the end at most once, as its last call, when the reader ended and every byte was sent. */
  lemma ClosedComesLast(limits: Limits, events: seq<Event>, i: nat)
    requires EndsWithEof(events) && i < |FromStart(limits, events).calls|
    requires FromStart(limits, events).calls[i] == Closed
    ensures var r := FromStart(limits, events);
            i == |r.calls| - 1 && r.pane.None? && SawEof(events) && Sent(r.calls) == Read(events)
  {
    NothingIsLost(limits, events);
  }

  // ---------------------------------------------------------------- in time

  /** A read samples the clock before it takes its turn: a later sample is at most `skew` behind an earlier one. */
  predicate Skewed(events: seq<Event>, skew: nat) {
    forall i, j :: 0 <= i < j < |events| && events[i].Data? && events[j].Data? ==>
      events[i].now <= events[j].now + skew
  }

  /** How many bytes had been read by `limit`. */
  function ReadBy(events: seq<Event>, limit: int): nat {
    if events == [] then 0
    else
      var last := events[|events| - 1];
      ReadBy(events[..|events| - 1], limit) + (if last.Data? && last.now <= limit then |last.bytes| else 0)
  }

  lemma {:induction false} ReadByGrows(events: seq<Event>, a: int, b: int)
    requires a <= b
    ensures ReadBy(events, a) <= ReadBy(events, b) <= |Read(events)|
  {
    if events != [] { ReadByGrows(events[..|events| - 1], a, b); }
  }

  /** The bytes still held were all read since the batch began, up to the skew of the clock samples. */
  predicate Young(events: seq<Event>, r: Result, skew: nat) {
    r.pane.Some? && r.pane.value.buffer.bytes != [] ==>
      var first := r.pane.value.buffer.first;
      first.Some? && ReadBy(events, first.value - skew - 1) <= |Sent(r.calls)| &&
      exists i :: 0 <= i < |events| && events[i].Data? && Some(events[i].now) == first
  }

  lemma NothingHeldIsYoung(events: seq<Event>, calls: seq<Call>, skew: nat)
    ensures Young(events, Result(None, calls), skew)
  {
  }

  lemma DataKeepsYoung(limits: Limits, events: seq<Event>, p: Pane, calls: seq<Call>, event: Event, skew: nat)
    requires Skewed(events + [event], skew) && event.Data?
    requires Young(events, Result(Some(p), calls), skew) && Sent(calls) + p.buffer.bytes == Read(events)
    ensures Young(events + [event], Result(Some(p.(buffer := Pushed(p.buffer, event.now, event.bytes))), calls), skew)
  {
    hide Sent, Read;
    var all := events + [event];
    assert all[..|events|] == events && all[|events|] == event;
    assert forall i :: 0 <= i < |events| ==> all[i] == events[i];
    if p.buffer.bytes == [] {
      ReadByGrows(events, event.now - skew - 1, event.now);
    }
  }

  lemma TickKeepsYoung(limits: Limits, events: seq<Event>, r: Result, event: Event, skew: nat)
    requires Young(events, r, skew) && !event.Data?
    ensures var last := Step(limits, r.pane, event);
            Young(events + [event], Result(last.pane, r.calls + last.calls), skew)
  {
    hide Sent, IsDue;
    var all := events + [event];
    assert all[..|events|] == events;
    assert forall i :: 0 <= i < |events| ==> all[i] == events[i];
    SentByStep(limits, r.pane, event, r.calls);
  }

  lemma StepKeepsYoung(limits: Limits, events: seq<Event>, r: Result, event: Event, skew: nat)
    requires Skewed(events + [event], skew) && Young(events, r, skew) && Accounted(events, r)
    ensures var last := Step(limits, r.pane, event);
            Young(events + [event], Result(last.pane, r.calls + last.calls), skew)
  {
    hide Sent, IsDue, SawEof, Skewed, Young, Pushed;
    if event.Data? && r.pane.Some? {
      DataKeepsYoung(limits, events, r.pane.value, r.calls, event, skew);
      assert r.calls + [] == r.calls;
    } else if event.Data? {
      NothingHeldIsYoung(events + [event], r.calls, skew);
      assert r.calls + [] == r.calls;
    } else {
      TickKeepsYoung(limits, events, r, event, skew);
    }
  }

  lemma {:induction false} RunKeepsYoung(limits: Limits, events: seq<Event>, skew: nat)
    requires Skewed(events, skew) && EndsWithEof(events)
    ensures Young(events, FromStart(limits, events), skew)
  {
    if events != [] {
      var front, event := events[..|events| - 1], events[|events| - 1];
      assert events == front + [event];
      NoDataAfterEof(front, event);
      RunKeepsYoung(limits, front, skew);
      NothingIsLost(limits, front);
      RunSnoc(limits, Some(FRESH), front, event);
      hide Accounted, Young, Step, EndsWithEof, Skewed;
      StepKeepsYoung(limits, front, FromStart(limits, front), event, skew);
    }
  }

  lemma SameReads(events: seq<Event>, now: int, limit: int)
    ensures ReadBy(events + [Tick(now)], limit) == ReadBy(events, limit)
    ensures Read(events + [Tick(now)]) == Read(events)
  {
    assert (events + [Tick(now)])[..|events|] == events;
  }

  /** A tick, whenever it comes, delivers everything that was read a window and a skew ago or earlier. */
  lemma TickDelivers(limits: Limits, events: seq<Event>, now: int, skew: nat)
    requires Skewed(events, skew) && EndsWithEof(events)
    ensures ReadBy(events, now - limits.window - skew) <= |Sent(FromStart(limits, events + [Tick(now)]).calls)|
  {
    var all := events + [Tick(now)];
    assert Skewed(all, skew) && EndsWithEof(all);
    hide Step, Skewed, EndsWithEof;
    RunKeepsYoung(limits, all, skew);
    NothingIsLost(limits, all);
    assert all[..|events|] == events;
    RunSnoc(limits, Some(FRESH), events, Tick(now));
    TickLeavesNothingDue(limits, Run(limits, Some(FRESH), events).pane, now);
    SameReads(events, now, now - limits.window - skew);
    var r, limit := FromStart(limits, all), now - limits.window - skew;
    hide Sent, Run, FromStart, Read, ReadBy, SawEof;
    if r.pane.Some? && r.pane.value.buffer.bytes != [] {
      ReadByGrows(events, limit, r.pane.value.buffer.first.value - skew - 1);
    } else {
      ReadByGrows(events, limit, limit);
    }
  }

  /** After a tick at or past the window, or with the size cap reached, the buffer is empty. */
  lemma TickLeavesNothingDue(limits: Limits, pane: Option<Pane>, now: int)
    ensures var p := Step(limits, pane, Tick(now)).pane; p.Some? ==> !IsDue(limits, p.value.buffer, now)
  {
  }

  /** A batch leaves only when it is due: large enough, or begun a window ago. */
  lemma BatchesAreDue(limits: Limits, pane: Option<Pane>, event: Event)
    ensures var calls := Step(limits, pane, event).calls;
            calls != [] && calls[0].Batch? ==>
            event.Tick? && pane.Some? && calls[0].bytes == pane.value.buffer.bytes &&
            (|calls[0].bytes| >= limits.sizeCap ||
             (pane.value.buffer.first.Some? && Elapsed(event.now, pane.value.buffer.first.value) >= limits.window))
  {
  }

  /** And it leaves whenever it is: a tick sends all that is held exactly when that is enough, or old enough. */
  lemma TickSendsExactlyWhen(limits: Limits, pane: Option<Pane>, now: int)
    ensures var calls := Step(limits, pane, Tick(now)).calls;
            calls != [] && calls[0].Batch? <==>
            && pane.Some? && pane.value.buffer.bytes != []
            && var b := pane.value.buffer;
               |b.bytes| >= limits.sizeCap ||
               (b.first.Some? && (limits.window == 0 || now - b.first.value >= limits.window))
  {
  }

  /** A tick finishes a pane, and tells its sink so, exactly when the reader has ended and nothing stays behind. */
  lemma TickFinishesExactlyWhen(limits: Limits, p: Pane, now: int)
    ensures var r, b := Step(limits, Some(p), Tick(now)), p.buffer;
            var waits := b.bytes != [] && |b.bytes| < limits.sizeCap &&
                         (b.first.None? || (limits.window > 0 && now - b.first.value < limits.window));
            && (r.pane.None? <==> p.closed && !waits)
            && (r.pane.None? <==> Closed in r.calls)
            && (r.pane.Some? ==> r.pane.value.closed == p.closed)
  {
  }

  /** The batch in the buffer began with some read. */
  predicate BegunByRead(events: seq<Event>, pane: Option<Pane>) {
    pane.Some? && pane.value.buffer.bytes != [] ==>
      exists i :: 0 <= i < |events| && events[i].Data? && Some(events[i].now) == pane.value.buffer.first
  }

  lemma {:induction false} RunBegunByRead(limits: Limits, events: seq<Event>)
    ensures BegunByRead(events, FromStart(limits, events).pane)
  {
    if events != [] {
      var front, event := events[..|events| - 1], events[|events| - 1];
      assert events == front + [event];
      RunBegunByRead(limits, front);
      RunSnoc(limits, Some(FRESH), front, event);
      hide Run, IsDue;
      var before := FromStart(limits, front).pane;
      assert forall i :: 0 <= i < |front| ==> events[i] == front[i];
      assert events[|front|] == event;
    }
  }

  lemma TickComesAfter(events: seq<Event>, now: int)
    requires EndsWithEof(events) && SawEof(events)
    ensures EndsWithEof(events + [Tick(now)]) && SawEof(events + [Tick(now)])
    ensures Read(events + [Tick(now)]) == Read(events)
  {
    var all := events + [Tick(now)];
    assert all[..|events|] == events && all[|events|] == Tick(now);
    assert forall i :: 0 <= i < |events| ==> all[i] == events[i];
  }

  /** Once the reader has ended and a window has passed since its last read, the next tick delivers all and says so. */
  lemma EndIsTold(limits: Limits, events: seq<Event>, now: int, last: int)
    requires EndsWithEof(events) && SawEof(events) && now - last >= limits.window
    requires forall i :: 0 <= i < |events| && events[i].Data? ==> events[i].now <= last
    ensures var r := FromStart(limits, events + [Tick(now)]);
            r.pane.None? && Sent(r.calls) == Read(events) && r.calls != [] && r.calls[|r.calls| - 1] == Closed
  {
    TickComesAfter(events, now);
    NothingIsLost(limits, events);
    NothingIsLost(limits, events + [Tick(now)]);
    RunBegunByRead(limits, events);
    RunSnoc(limits, Some(FRESH), events, Tick(now));
    hide SawEof, EndsWithEof, Sent, Read, Run, IsDue, Elapsed;
    var before := FromStart(limits, events);
    if before.pane.Some? {
      TickFinishesExactlyWhen(limits, before.pane.value, now);
    }
  }

  /** So after a tick less than the size cap is held, over every run. */
  lemma HeldStaysSmall(limits: Limits, events: seq<Event>, now: int)
    requires limits.sizeCap > 0
    ensures var pane := FromStart(limits, events + [Tick(now)]).pane;
            pane.Some? ==> |pane.value.buffer.bytes| < limits.sizeCap
  {
    RunSnoc(limits, Some(FRESH), events, Tick(now));
    hide Run;
  }

  /** A finished or removed pane never calls its sink again. */
  lemma {:induction false} AbsentStaysSilent(limits: Limits, events: seq<Event>)
    ensures Run(limits, None, events) == Result(None, [])
  {
    if events != [] { AbsentStaysSilent(limits, events[..|events| - 1]); }
  }
}
