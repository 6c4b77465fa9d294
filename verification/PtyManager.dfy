/** Spawning, killing and pausing terminals: how the pane map, the hub and the reader pool move together. */
module PtyManagers {
  import opened Bytes
  import opened Coalescing
  import opened CoalescerHubs
  import opened PtyReaders

  datatype Spawned = Started | NotOpened | PoolFull(cap: nat, active: nat)

  class PtyManager {
    /** The live panes and their pause flags. */
    var panes: map<PaneId, bool>
    const pool: ReaderPool
    const hub: CoalescerHub

    ghost predicate Valid()
      reads this, pool, hub
    {
      pool.Valid() && OwnSinks(hub.panes)
    }

    constructor (cap: nat, limits: Limits)
      ensures Valid() && fresh(pool) && fresh(hub)
      ensures panes == map[] && pool.active == {} && pool.cap == cap && hub.View() == Hub(map[], [])
    {
      panes := map[];
      pool := new ReaderPool(cap);
      hub := new CoalescerHub(limits);
    }

    /** Whether the terminal could be opened is up to the system; `sink` is handed over by the caller. */
    method Spawn(id: PaneId, sink: nat, available: bool) returns (r: Spawned)
      requires Valid() && forall p :: p in hub.panes ==> hub.panes[p].sink != sink
      modifies this, pool, hub
      ensures Valid() && hub.calls == old(hub.calls)
      ensures r.NotOpened? <==> !available
      ensures r.Started? <==> available && id !in old(pool.active) && |old(pool.active)| < pool.cap
      ensures r.Started? ==>
                panes == old(panes)[id := false] && pool.active == old(pool.active) + {id} &&
                hub.panes == old(hub.panes)[id := Entry(sink, FRESH)]
      ensures !r.Started? ==> panes == old(panes) && pool.active == old(pool.active)
      ensures r.NotOpened? ==> hub.panes == old(hub.panes)
      ensures r.PoolFull? ==> hub.panes == old(hub.panes) - {id} && r == PoolFull(pool.cap, |pool.active|)
      // a refusal harms nothing exactly when the pane had no entry
      ensures r.PoolFull? ==> (hub.View() == old(hub.View()) <==> id !in old(hub.panes))
    {
      if !available {
        return NotOpened;
      }
      hub.Register(id, sink);
      var admitted := pool.TryAdmit(id);
      if !admitted {
        hub.Remove(id);
        assert old(hub.panes)[id := Entry(sink, FRESH)] - {id} == old(hub.panes) - {id};
        return PoolFull(pool.cap, pool.count);
      }
      panes := panes[id := false];
      return Started;
    }

    /** The reader is not stopped here: it keeps its slot until it reaches the end of its stream. */
    method Kill(id: PaneId) returns (known: bool)
      requires Valid()
      modifies this, hub
      ensures Valid() && hub.calls == old(hub.calls) && pool.active == old(pool.active)
      ensures known <==> id in old(panes)
      ensures panes == old(panes) - {id}
      ensures hub.panes == if known then old(hub.panes) - {id} else old(hub.panes)
    {
      known := id in panes;
      panes := panes - {id};
      if known {
        hub.Remove(id);
      }
    }

    method SetPause(id: PaneId, value: bool) returns (known: bool)
      modifies this
      ensures known <==> id in old(panes)
      ensures panes == if known then old(panes)[id := value] else old(panes)
    {
      known := id in panes;
      if known {
        panes := panes[id := value];
      }
    }
  }

  lemma RunSplits(limits: Limits, front: seq<HubEvent>, back: seq<HubEvent>, states: seq<Hub>)
    requires HubRun(limits, front + back, states)
    ensures |states| == |front| + |back| + 1
    ensures HubRun(limits, front, states[..|front| + 1]) && HubRun(limits, back, states[|front|..])
  {
    hide HubStep;
    var n, all := |front|, front + back;
    forall i | 0 <= i < n ensures HubStep(limits, states[..n + 1][i], front[i], states[..n + 1][i + 1]) {
      assert all[i] == front[i] && HubStep(limits, states[i], all[i], states[i + 1]);
    }
    forall i | 0 <= i < |back| ensures HubStep(limits, states[n..][i], back[i], states[n..][i + 1]) {
      assert all[n + i] == back[i] && HubStep(limits, states[n + i], all[n + i], states[n + i + 1]);
    }
  }

  lemma OneStep(limits: Limits, event: HubEvent, states: seq<Hub>)
    requires HubRun(limits, [event], states)
    ensures |states| == 2 && HubStep(limits, states[0], event, states[1])
  {
    hide HubStep;
    assert HubStep(limits, states[0], [event][0], states[1]);
  }

  /**
   * Registering a pane that still has an entry cuts its old sink off, whatever happens next and in whatever order:
   * the bytes it was still owed and its end are lost. So it is when the spawn is refused and removes the entry,
   * with other threads acting in between, and when it starts because the old reader had ended before its last flush.
   */
  lemma RegistrationCutsOff(limits: Limits, id: PaneId, sink: nat, events: seq<HubEvent>, states: seq<Hub>)
    requires HubRun(limits, [Register(id, sink)] + events, states)
    requires id in states[0].panes && sink != states[0].panes[id].sink
    requires forall p :: p in states[0].panes && p != id ==> states[0].panes[p].sink != states[0].panes[id].sink
    requires forall i :: 0 <= i < |events| && events[i].Register? ==> events[i].sink != states[0].panes[id].sink
    ensures var was := states[0].panes[id].sink;
            CallsTo(states[|states| - 1].calls, was) == CallsTo(states[0].calls, was)
  {
    hide CallsTo, HubRun;
    RunSplits(limits, [Register(id, sink)], events, states);
    OneStep(limits, Register(id, sink), states[..2]);
    UnownedSinkIsSilent(limits, events, states[1..], states[0].panes[id].sink);
  }

  /** What that costs: the bytes read and not yet sent, and the end, which the old sink never learns. */
  lemma CutOffLosesTheRest(limits: Limits, id: PaneId, sink: nat, before: seq<HubEvent>, after: seq<HubEvent>,
                           states: seq<Hub>, other: nat)
    requires HubRun(limits, before + [Register(id, other)] + after, states)
    requires before != [] && before[0] == Register(id, sink) && other != sink
    requires OwnSinks(states[0].panes)
    requires forall p :: p in states[0].panes && p != id ==> states[0].panes[p].sink != sink
    requires CallsTo(states[0].calls, sink) == []
    requires forall i :: 0 < i < |before| ==> LeavesAlone(before[i], id, sink)
    requires forall i :: 0 <= i < |after| && after[i].Register? ==> after[i].sink != sink
    requires StopsAtEof(before[1..], id) && id in states[|before|].panes
    ensures var heard := CallsTo(states[|states| - 1].calls, sink);
            var held := states[|before|].panes[id].pane.buffer.bytes;
            Closed !in heard && Sent(heard) + held == ReadFrom(before[1..], id)
  {
    hide CallsTo, LocalEvents, HubRun, StopsAtEof, Sent, ReadFrom;
    var n := |before|;
    assert before + [Register(id, other)] + after == before + ([Register(id, other)] + after);
    RunSplits(limits, before, [Register(id, other)] + after, states);
    PaneRunsAlone(limits, before, states[..n + 1], id, sink);
    SinkGetsWhatWasRead(limits, before, states[..n + 1], id, sink);
    RegistrationCutsOff(limits, id, other, after, states[n..]);
  }
}
