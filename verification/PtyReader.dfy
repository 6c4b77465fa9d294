/** The reader threads: a bounded pool, the read loop, and what a pause stops. */
module PtyReaders {
  import opened Options
  import opened Bytes
  import opened Coalescing

  // ---------------------------------------------------------------- the pool

  class ReaderPool {
    const cap: nat
    var active: set<PaneId>
    var count: nat

    /** The count mirrors the panes with a live reader, and never exceeds the cap. */
    ghost predicate Valid()
      reads this
    {
      count == |active| <= cap
    }

    constructor (cap: nat)
      ensures Valid() && active == {} && this.cap == cap
    {
      this.cap, active, count := cap, {}, 0;
    }

    /** A slot for `id`, unless the pool is full or the pane already has a reader. */
    method TryAdmit(id: PaneId) returns (admitted: bool)
      requires Valid()
      modifies this
      ensures Valid()
      ensures admitted <==> id !in old(active) && |old(active)| < cap
      ensures active == if admitted then old(active) + {id} else old(active)
    {
      if |active| >= cap || id in active {
        return false;
      }
      active := active + {id};
      count := |active|;
      return true;
    }

    method Release(id: PaneId)
      requires Valid()
      modifies this
      ensures Valid() && active == old(active) - {id}
    {
      if id in active {
        assert |active - {id}| == |active| - 1;
      } else {
        assert active - {id} == active;
      }
      active := active - {id};
      count := |active|;
    }
  }

  // ---------------------------------------------------------------- the read loop

  const READ_BUF: nat := 65536

  /** What a read returns: some bytes, an interruption to retry, or the end (no bytes, or another error). */
  datatype ReadResult = Chunk(bytes: seq<byte>) | Interrupted | End

  predicate Readable(r: ReadResult) {
    r.Chunk? ==> 0 < |r.bytes| <= READ_BUF
  }

  /** One turn of the loop: the flag was set and the thread parked, or it read. */
  datatype Turn = Parked | Got(result: ReadResult)

  /** A call on the raw sink. */
  datatype RawCall = RawData(bytes: seq<byte>) | RawEof

  function RawCalls(turns: seq<Turn>): seq<RawCall> {
    if turns == [] then []
    else
      match turns[0]
      case Got(Chunk(bytes)) => [RawData(bytes)] + RawCalls(turns[1..])
      case Got(End) => [RawEof]
      case _ => RawCalls(turns[1..])
  }

  /** The loop over the turns the outside world makes; it returns early at the end of the stream. */
  method ReadLoop(turns: seq<Turn>) returns (calls: seq<RawCall>, turnsMade: nat)
    ensures calls == RawCalls(turns)
    ensures turnsMade <= |turns|
    ensures forall i :: 0 <= i < turnsMade - 1 ==> turns[i] != Got(End)
    ensures turnsMade == |turns| || (turnsMade > 0 && turns[turnsMade - 1] == Got(End))
  {
    calls, turnsMade := [], 0;
    while turnsMade < |turns|
      invariant turnsMade <= |turns|
      invariant forall i :: 0 <= i < turnsMade ==> turns[i] != Got(End)
      invariant calls + RawCalls(turns[turnsMade..]) == RawCalls(turns)
    {
      var turn := turns[turnsMade];
      ghost var rest := turns[turnsMade..];
      assert rest[1..] == turns[turnsMade + 1..];
      turnsMade := turnsMade + 1;
      match turn
      case Parked =>
      case Got(Chunk(bytes)) => calls := calls + [RawData(bytes)];
      case Got(Interrupted) =>
      case Got(End) => calls := calls + [RawEof]; return;
    }
  }

  /** What the terminal produced before its end. */
  function Output(turns: seq<Turn>): seq<byte> {
    if turns == [] || turns[0] == Got(End) then []
    else (match turns[0] case Got(Chunk(bytes)) => bytes case _ => []) + Output(turns[1..])
  }

  /** What the reader contributed to the events of a pane; times and ticks are somebody else's. */
  function ByReader(events: seq<Event>): seq<RawCall> {
    if events == [] then []
    else
      ByReader(events[..|events| - 1]) +
      match events[|events| - 1] case Data(_, bytes) => [RawData(bytes)] case Eof => [RawEof] case Tick(_) => []
  }

  function DataOf(calls: seq<RawCall>): seq<byte> {
    if calls == [] then []
    else DataOf(calls[..|calls| - 1]) + match calls[|calls| - 1] case RawData(bytes) => bytes case RawEof => []
  }

  lemma DataOfSnoc(calls: seq<RawCall>, c: RawCall)
    ensures DataOf(calls + [c]) == DataOf(calls) + match c case RawData(bytes) => bytes case RawEof => []
  {
    assert (calls + [c])[..|calls|] == calls;
  }

  lemma NoData()
    ensures DataOf([]) == []
  {
  }

  lemma {:induction false} DataOfCons(c: RawCall, calls: seq<RawCall>)
    ensures DataOf([c] + calls) == (match c case RawData(bytes) => bytes case RawEof => []) + DataOf(calls)
    decreases |calls|
  {
    hide DataOf;
    if calls == [] {
      assert [c] + calls == [] + [c];
      DataOfSnoc([], c);
      NoData();
    } else {
      var front, last := calls[..|calls| - 1], calls[|calls| - 1];
      DataOfCons(c, front);
      DataOfSnoc(front, last);
      DataOfSnoc([c] + front, last);
      assert front + [last] == calls;
      assert [c] + calls == [c] + front + [last];
    }
  }

  /** The end comes last and the data is the terminal's output. */
  lemma {:induction false} RawCallsAreOutput(turns: seq<Turn>)
    ensures DataOf(RawCalls(turns)) == Output(turns)
    ensures EofLast(RawCalls(turns))
    ensures RawEof in RawCalls(turns) <==> Got(End) in turns
  {
    if turns != [] {
      RawCallsAreOutput(turns[1..]);
      match turns[0]
      case Got(Chunk(bytes)) =>
        var rest := RawCalls(turns[1..]);
        DataOfCons(RawData(bytes), rest);
        assert rest != [] ==> ([RawData(bytes)] + rest)[..|rest|] == [RawData(bytes)] + rest[..|rest| - 1];
      case Got(End) => DataOfSnoc([], RawEof); assert [] + [RawEof] == [RawEof];
      case _ =>
    }
  }

  lemma {:induction false} ReadIsData(events: seq<Event>)
    ensures Read(events) == DataOf(ByReader(events))
  {
    if events != [] {
      var front, last := events[..|events| - 1], events[|events| - 1];
      ReadIsData(front);
      match last
      case Data(_, bytes) => DataOfSnoc(ByReader(front), RawData(bytes));
      case Eof => DataOfSnoc(ByReader(front), RawEof);
      case Tick(_) => assert ByReader(events) == ByReader(front);
    }
  }

  lemma {:induction false} EofByReader(events: seq<Event>)
    ensures SawEof(events) <==> RawEof in ByReader(events)
  {
    if events != [] {
      var front, last := events[..|events| - 1], events[|events| - 1];
      EofByReader(front);
      SawEofSnoc(front, last);
      assert events == front + [last];
    }
  }

  lemma SawEofSnoc(events: seq<Event>, event: Event)
    ensures SawEof(events + [event]) <==> SawEof(events) || event.Eof?
  {
    var all := events + [event];
    assert all[|events|] == event;
    assert forall i :: 0 <= i < |events| ==> all[i] == events[i];
  }

  /** Only the last call may be the end. */
  predicate EofLast(calls: seq<RawCall>) {
    calls == [] || RawEof !in calls[..|calls| - 1]
  }

  lemma {:induction false} EofComesLast(events: seq<Event>)
    requires EofLast(ByReader(events))
    ensures EndsWithEof(events)
  {
    hide EndsWithEof, SawEof, ByReader;
    if events == [] {
      NothingAfterEof();
    } else {
      var front, last := events[..|events| - 1], events[|events| - 1];
      assert events == front + [last];
      LastByReader(front, last);
      EofByReader(front);
      EofComesLast(front);
      EofStaysLast(front, last);
    }
  }

  lemma LastByReader(front: seq<Event>, last: Event)
    requires EofLast(ByReader(front + [last]))
    ensures EofLast(ByReader(front)) && (last.Data? ==> RawEof !in ByReader(front))
  {
    var events, calls := front + [last], ByReader(front);
    assert events[..|events| - 1] == front;
    if last.Tick? {
      assert ByReader(events) == calls;
    } else {
      assert ByReader(events)[..|ByReader(events)| - 1] == calls;
      assert calls != [] ==> forall call :: call in calls[..|calls| - 1] ==> call in calls;
    }
  }

  lemma EofStaysLast(events: seq<Event>, event: Event)
    requires EndsWithEof(events) && (event.Data? ==> !SawEof(events))
    ensures EndsWithEof(events + [event])
  {
    var all := events + [event];
    assert forall i :: 0 <= i < |events| ==> all[i] == events[i];
  }

  lemma NothingAfterEof()
    ensures EndsWithEof([])
  {
  }

  /** From the terminal to the sink: whatever the reads, and however ticks fall between them, nothing is lost. */
  lemma PipelineConserves(limits: Limits, turns: seq<Turn>, events: seq<Event>)
    requires ByReader(events) == RawCalls(turns)
    ensures var r := FromStart(limits, events);
            match r.pane
            case Some(p) => Sent(r.calls) + p.buffer.bytes == Output(turns) && Closed !in r.calls
            case None => Sent(r.calls) == Output(turns) && Got(End) in turns
  {
    RawCallsAreOutput(turns);
    EofComesLast(events);
    ReadIsData(events);
    EofByReader(events);
    NothingIsLost(limits, events);
    hide RawCalls, ByReader, Read, Sent, Run, FromStart, SawEof;
  }

  // ---------------------------------------------------------------- pausing

  /** Where a reader thread stands: about to look at the flag, inside a blocking read, or finished. */
  datatype Stage = Checking | Reading | Finished

  datatype Reader = Reader(stage: Stage, paused: bool)

  datatype Action = SetPause(value: bool) | Check | Return(result: ReadResult)

  predicate Enabled(r: Reader, a: Action) {
    match a
    case SetPause(_) => true
    case Check => r.stage.Checking?
    case Return(result) => r.stage.Reading? && Readable(result)
  }

  function Next(r: Reader, a: Action): Reader
    requires Enabled(r, a)
  {
    match a
    case SetPause(value) => r.(paused := value)
    case Check => if r.paused then r else r.(stage := Reading)
    case Return(End) => r.(stage := Finished)
    case Return(_) => r.(stage := Checking)
  }

  predicate Possible(r: Reader, actions: seq<Action>)
    decreases |actions|
  {
    actions == [] || (Enabled(r, actions[0]) && Possible(Next(r, actions[0]), actions[1..]))
  }

  /** The chunks delivered over a run. */
  function Delivered(actions: seq<Action>): seq<seq<byte>> {
    if actions == [] then []
    else (match actions[0] case Return(Chunk(bytes)) => [bytes] case _ => []) + Delivered(actions[1..])
  }

  function Total(chunks: seq<seq<byte>>): nat {
    if chunks == [] then 0 else |chunks[0]| + Total(chunks[1..])
  }

  /** While the flag stays set at most the read already under way is delivered. */
  lemma {:induction false} PauseStopsReading(r: Reader, actions: seq<Action>)
    requires r.paused && Possible(r, actions) && SetPause(false) !in actions
    ensures |Delivered(actions)| <= if r.stage.Reading? then 1 else 0
    ensures Total(Delivered(actions)) <= if r.stage.Reading? then 65536 else 0
    decreases |actions|
  {
    if actions != [] {
      var a := actions[0];
      assert a.SetPause? ==> a.value;
      PauseStopsReading(Next(r, a), actions[1..]);
    }
  }

  /** And that read may fill the whole buffer. */
  lemma PauseBoundIsReached(chunk: seq<byte>)
    requires |chunk| == 65536
    ensures var run := [Check, SetPause(true), Return(Chunk(chunk))];
            Possible(Reader(Checking, false), run) && Total(Delivered(run[2..])) == 65536
  {
    var run := [Check, SetPause(true), Return(Chunk(chunk))];
    assert run[1..] == [SetPause(true), Return(Chunk(chunk))];
    assert run[1..][1..] == [Return(Chunk(chunk))] == run[2..];
    assert run[2..][1..] == [];
    assert Possible(Reader(Reading, true), run[2..]) && Possible(Reader(Reading, false), run[1..]);
    assert Delivered(run[2..]) == [chunk];
    assert [chunk][1..] == [];
  }
}
