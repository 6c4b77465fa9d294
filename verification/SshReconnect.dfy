/** Reconnecting a dropped session: how long to wait, how often to try, when to give up. */
module SshReconnect {
  import opened Options

  /** The largest duration there is: 64-bit seconds and a fraction, in nanoseconds. */
  const MAX_DURATION: nat := 0xFFFF_FFFF_FFFF_FFFF * 1_000_000_000 + 999_999_999

  type Duration = d: nat | d <= MAX_DURATION

  datatype Policy = Policy(maxAttempts: nat, base: Duration, max: Duration)

  function Power2(n: nat): (p: nat)
    ensures p > 0
  {
    if n == 0 then 1 else 2 * Power2(n - 1)
  }

  function CheckedMul(d: Duration, factor: nat): Option<Duration> {
    if d * factor <= MAX_DURATION then Some(d * factor) else None
  }

  function Min(a: nat, b: nat): nat { if a < b then a else b }

  /** The wait before a retry; attempts count from 1, and 0 is taken for 1. */
  function BackoffFor(policy: Policy, attempt: nat): Duration {
    var shift := Min(if attempt == 0 then 0 else attempt - 1, 31);
    var scaled := match CheckedMul(policy.base, Power2(shift)) case Some(d) => d case None => policy.max;
    Min(scaled, policy.max)
  }

  /**
   * Up to the thirty-second attempt the wait doubles until it meets the ceiling, and then it stays; overflow cannot be
   * observed.
   */
  lemma BackoffDoubles(policy: Policy, attempt: nat)
    requires attempt >= 1
    ensures attempt <= 32 ==> BackoffFor(policy, attempt) == Min(policy.base * Power2(attempt - 1), policy.max)
    ensures attempt < 32 ==> BackoffFor(policy, attempt + 1) == Min(2 * BackoffFor(policy, attempt), policy.max)
    ensures attempt >= 32 ==> BackoffFor(policy, attempt + 1) == BackoffFor(policy, attempt)
  {
    var p := Power2(attempt - 1);
    assert Power2(attempt) == 2 * p;
    assert policy.base * (2 * p) == 2 * (policy.base * p);
  }

  lemma {:induction false} Power2Grows(m: nat, n: nat)
    requires m <= n
    ensures Power2(m) <= Power2(n)
    decreases n
  {
    if m < n { Power2Grows(m, n - 1); }
  }

  /** Waits never shrink and never exceed the ceiling. */
  lemma BackoffGrows(policy: Policy, a: nat, b: nat)
    requires a <= b
    ensures BackoffFor(policy, a) <= BackoffFor(policy, b) <= policy.max
  {
    var m := Min(if a == 0 then 0 else a - 1, 31);
    var n := Min(if b == 0 then 0 else b - 1, 31);
    Power2Grows(m, n);
    Scale(policy.base, Power2(m), Power2(n));
  }

  lemma Scale(d: nat, a: nat, b: nat)
    requires a <= b
    ensures d * a <= d * b
  {
  }

  // ---------------------------------------------------------------- the supervisor

  datatype Reason = Exhausted(what: string, attempts: nat) | Fatal(reason: string)

  datatype Status =
    | Connecting
    | Connected
    | Reconnecting(attempt: nat, nextBackoffMs: nat)
    | Failed(reason: Reason)
    | Disconnected

  const DROPPED := "connection dropped"
  const ATTEMPT_FAILED := "reconnect attempt failed"

  datatype Event = Connect | Drop | AttemptFailed | FatalError(reason: string) | Disconnect

  datatype Supervisor = Supervisor(status: Status, attempt: nat)

  const START := Supervisor(Connecting, 0)

  predicate Failure(e: Event) { e.Drop? || e.AttemptFailed? }

  /** The status after the `n`-th failure in a row. */
  function StatusAfter(policy: Policy, n: nat, what: string): Status
    requires n > 0
  {
    if n > policy.maxAttempts then Failed(Exhausted(what, n - 1))
    else Reconnecting(n, BackoffFor(policy, n) / 1_000_000 % 0x1_0000_0000_0000_0000)
  }

  function Step(policy: Policy, s: Supervisor, e: Event): Supervisor {
    match e
    case Connect => Supervisor(Connected, 0)
    case Drop => Supervisor(StatusAfter(policy, s.attempt + 1, DROPPED), s.attempt + 1)
    case AttemptFailed => Supervisor(StatusAfter(policy, s.attempt + 1, ATTEMPT_FAILED), s.attempt + 1)
    case FatalError(reason) => s.(status := Failed(Fatal(reason)))
    case Disconnect => s.(status := Disconnected)
  }

  function Run(policy: Policy, events: seq<Event>): Supervisor {
    if events == [] then START
    else Step(policy, Run(policy, events[..|events| - 1]), events[|events| - 1])
  }

  class ReconnectSupervisor {
    const policy: Policy
    var status: Status
    var attempt: nat
    /** Everything recorded so far. */
    ghost var history: seq<Event>

    ghost predicate Valid()
      reads this
    {
      Supervisor(status, attempt) == Run(policy, history)
    }

    constructor (policy: Policy)
      ensures Valid() && this.policy == policy && history == []
    {
      this.policy, status, attempt, history := policy, Connecting, 0, [];
    }

    method RecordConnected()
      requires Valid()
      modifies this
      ensures Valid() && history == old(history) + [Connect]
    {
      attempt := 0;
      status := Connected;
      Note(Connect);
    }

    method RecordDrop() returns (backoff: Option<Duration>)
      requires Valid()
      modifies this
      ensures Valid() && history == old(history) + [Drop]
      ensures backoff == Retry(policy, FailuresInARow(old(history)) + 1)
    {
      RunCountsFailures(policy, history);
      backoff := AdvanceAttempt(DROPPED);
      Note(Drop);
    }

    method RecordAttemptFailed() returns (backoff: Option<Duration>)
      requires Valid()
      modifies this
      ensures Valid() && history == old(history) + [AttemptFailed]
      ensures backoff == Retry(policy, FailuresInARow(old(history)) + 1)
    {
      RunCountsFailures(policy, history);
      backoff := AdvanceAttempt(ATTEMPT_FAILED);
      Note(AttemptFailed);
    }

    method RecordFatal(reason: string)
      requires Valid()
      modifies this
      ensures Valid() && history == old(history) + [FatalError(reason)]
    {
      status := Failed(Fatal(reason));
      Note(FatalError(reason));
    }

    method RecordDisconnected()
      requires Valid()
      modifies this
      ensures Valid() && history == old(history) + [Disconnect]
    {
      status := Disconnected;
      Note(Disconnect);
    }

    method AdvanceAttempt(what: string) returns (backoff: Option<Duration>)
      modifies this`attempt, this`status
      ensures attempt == old(attempt) + 1 && status == StatusAfter(policy, attempt, what)
      ensures backoff == Retry(policy, attempt)
    {
      attempt := attempt + 1;
      if attempt > policy.maxAttempts {
        status := Failed(Exhausted(what, attempt - 1));
        return None;
      }
      var wait := BackoffFor(policy, attempt);
      status := Reconnecting(attempt, wait / 1_000_000 % 0x1_0000_0000_0000_0000);
      return Some(wait);
    }

    ghost method Note(e: Event)
      requires Supervisor(status, attempt) == Step(policy, Run(policy, history), e)
      modifies this`history
      ensures Valid() && history == old(history) + [e]
    {
      history := history + [e];
      assert history[..|history| - 1] == old(history);
    }
  }

  /** The answer to the `k`-th failure in a row. */
  function Retry(policy: Policy, k: nat): Option<Duration> {
    if k <= policy.maxAttempts then Some(BackoffFor(policy, k)) else None
  }

  /** Drops and failed attempts since the last connect. */
  function FailuresInARow(events: seq<Event>): nat {
    if events == [] then 0
    else
      var last := events[|events| - 1];
      if last.Connect? then 0
      else FailuresInARow(events[..|events| - 1]) + (if Failure(last) then 1 else 0)
  }

  /** Over every run the attempt counter is the number of failures since the last connect. */
  lemma {:induction false} RunCountsFailures(policy: Policy, events: seq<Event>)
    ensures Run(policy, events).attempt == FailuresInARow(events)
  {
    if events != [] { RunCountsFailures(policy, events[..|events| - 1]); }
  }

  /** What is shown after each event, over every run: the event and the failures in a row tell it. */
  lemma StatusIs(policy: Policy, events: seq<Event>, event: Event)
    ensures var n := FailuresInARow(events) + 1;
            Run(policy, events + [event]).status ==
            match event
            case Connect => Connected
            case FatalError(reason) => Failed(Fatal(reason))
            case Disconnect => Disconnected
            case _ =>
              if n <= policy.maxAttempts then
                Reconnecting(n, BackoffFor(policy, n) / 1_000_000 % 0x1_0000_0000_0000_0000)
              else
                Failed(Exhausted(if event.Drop? then "connection dropped" else "reconnect attempt failed", n - 1))
  {
    hide BackoffFor;
    RunCountsFailures(policy, events);
    assert (events + [event])[..|events|] == events;
  }

  /** A fatal error does not stick: the next drop reconnects exactly when attempts are left. */
  lemma FatalIsUndoneExactlyWhen(policy: Policy, events: seq<Event>, reason: string)
    ensures Run(policy, events + [FatalError(reason)]).status.Failed?
    ensures Run(policy, events + [FatalError(reason), Drop]).status.Reconnecting? <==>
            FailuresInARow(events) < policy.maxAttempts
  {
    hide StatusAfter;
    RunCountsFailures(policy, events);
    var fatal := events + [FatalError(reason)];
    var all := events + [FatalError(reason), Drop];
    assert fatal[..|fatal| - 1] == events && all[..|all| - 1] == fatal;
    assert fatal[|fatal| - 1] == FatalError(reason) && all[|all| - 1] == Drop;
    StatusTells(policy, FailuresInARow(events) + 1, DROPPED);
  }

  lemma StatusTells(policy: Policy, n: nat, what: string)
    requires n > 0
    ensures StatusAfter(policy, n, what).Reconnecting? <==> n <= policy.maxAttempts
  {
  }

  // ---------------------------------------------------------------- the loop

  /** One outage: the waits before each connect, and how it ended as far as it was observed. */
  datatype End = Restored | GaveUp | StillTrying

  datatype Outage = Outage(waits: seq<Duration>, end: End)

  function Waits(policy: Policy, n: nat): (waits: seq<Duration>)
    ensures |waits| == n
  {
    if n == 0 then [] else Waits(policy, n - 1) + [BackoffFor(policy, n)]
  }

  /** How many connects fail before the first that works. */
  function FailedFirst(connects: seq<bool>): (n: nat)
    ensures n <= |connects| && (forall i :: 0 <= i < n ==> !connects[i]) && (n < |connects| ==> connects[n])
  {
    if connects == [] || connects[0] then 0 else 1 + FailedFirst(connects[1..])
  }

  /** How the outage in front of these connects goes. */
  function FirstOutage(policy: Policy, connects: seq<bool>): (first: Outage)
    ensures first.end.Restored? ==> FailedFirst(connects) < |connects|
  {
    var n := FailedFirst(connects);
    if n >= policy.maxAttempts then Outage(Waits(policy, policy.maxAttempts), GaveUp)
    else if n == |connects| then Outage(Waits(policy, n + 1), StillTrying)
    else Outage(Waits(policy, n + 1), Restored)
  }

  /** The outages over a session's life, given how often it drops and how its connects turn out. */
  function Outages(policy: Policy, drops: nat, connects: seq<bool>): seq<Outage> {
    if drops == 0 then []
    else
      var first := FirstOutage(policy, connects);
      if !first.end.Restored? then [first]
      else [first] + Outages(policy, drops - 1, connects[FailedFirst(connects) + 1..])
  }

  /**
   * What the supervisor does to the world: it publishes its status and points the broker at the session of a connect,
   * counted from 1.
   */
  datatype Act = Publish(status: Status) | Swap(connect: nat)

  function Connects(outage: Outage): nat {
    if outage.end.StillTrying? && outage.waits != [] then |outage.waits| - 1 else |outage.waits|
  }

  /** How many connects were made in all. */
  function Made(outages: seq<Outage>): nat {
    if outages == [] then 0 else Made(outages[..|outages| - 1]) + Connects(outages[|outages| - 1])
  }

  /** What is published over `n` failures in a row, a drop and then failed attempts. */
  function Failing(policy: Policy, n: nat): seq<Act> {
    if n == 0 then []
    else Failing(policy, n - 1) + [Publish(StatusAfter(policy, n, if n == 1 then DROPPED else ATTEMPT_FAILED))]
  }

  /** The acts of an outage after `made` connects. */
  function Told(policy: Policy, outage: Outage, made: nat): seq<Act> {
    match outage.end
    case Restored => Failing(policy, |outage.waits|) + [Swap(made + |outage.waits|), Publish(Connected)]
    case GaveUp => Failing(policy, |outage.waits| + 1)
    case StillTrying => Failing(policy, |outage.waits|)
  }

  function Acts(policy: Policy, outages: seq<Outage>): seq<Act> {
    if outages == [] then [Publish(Connected)]
    else
      var earlier, last := outages[..|outages| - 1], outages[|outages| - 1];
      Acts(policy, earlier) + Told(policy, last, Made(earlier))
  }

  lemma {:induction false} FailedFirstFrom(connects: seq<bool>, k: nat)
    requires k <= |connects| && forall i :: 0 <= i < k ==> !connects[i]
    ensures FailedFirst(connects) == k + FailedFirst(connects[k..])
  {
    if k > 0 {
      FailedFirstFrom(connects[1..], k - 1);
      assert connects[1..][k - 1..] == connects[k..];
    } else {
      assert connects[0..] == connects;
    }
  }

  /** What is known of the outage once its first `k` connects have failed. */
  lemma OutageAfter(policy: Policy, connects: seq<bool>, k: nat)
    requires k <= |connects| && k <= policy.maxAttempts && forall i :: 0 <= i < k ==> !connects[i]
    ensures Waits(policy, k + 1) == Waits(policy, k) + [BackoffFor(policy, k + 1)]
    ensures k == policy.maxAttempts ==> FirstOutage(policy, connects) == Outage(Waits(policy, k), GaveUp)
    ensures k < policy.maxAttempts && k == |connects| ==>
              FirstOutage(policy, connects) == Outage(Waits(policy, k + 1), StillTrying)
    ensures k < policy.maxAttempts && k < |connects| && connects[k] ==>
              FirstOutage(policy, connects) == Outage(Waits(policy, k + 1), Restored) && FailedFirst(connects) == k
  {
    hide BackoffFor;
    FailedFirstFrom(connects, k);
  }

  /** Retries after a drop until connected or exhausted. */
  method RetryAfterDrop(sup: ReconnectSupervisor, connects: seq<bool>, from: nat)
    returns (outage: Outage, used: nat, acts: seq<Act>)
    requires from <= |connects| && sup.Valid() && FailuresInARow(sup.history) == 0
    modifies sup
    ensures sup.Valid() && outage == FirstOutage(sup.policy, connects[from..]) && used == from + Connects(outage)
    ensures acts == Told(sup.policy, outage, from)
    ensures outage.end.Restored? ==>
              used == from + FailedFirst(connects[from..]) + 1 &&
              FailuresInARow(sup.history) == 0 && sup.status == Connected
    ensures outage.end.GaveUp? <==> sup.status.Failed?
  {
    hide BackoffFor, Waits, FailedFirst, FirstOutage, Run, FailuresInARow, StatusAfter;
    ghost var rest := connects[from..];
    var backoff := sup.RecordDrop();
    CountsOneMore(sup);
    acts := [Publish(sup.status)];
    var waits := [];
    used := from;
    while true
      invariant from <= used <= |connects| && sup.Valid()
      invariant forall i :: 0 <= i < used - from ==> !rest[i]
      invariant FailuresInARow(sup.history) == used - from + 1
      invariant backoff == Retry(sup.policy, used - from + 1) && waits == Waits(sup.policy, used - from)
      invariant acts == Failing(sup.policy, used - from + 1)
      invariant used - from <= sup.policy.maxAttempts
      invariant backoff.None? <==> sup.status.Failed?
      decreases |connects| - used
    {
      OutageAfter(sup.policy, rest, used - from);
      if backoff.None? {
        return Outage(waits, GaveUp), used, acts;
      }
      waits := waits + [backoff.value];
      if used == |connects| {
        return Outage(waits, StillTrying), used, acts;
      }
      used := used + 1;
      if connects[used - 1] {
        sup.RecordConnected();
        ConnectClears(sup);
        return Outage(waits, Restored), used, acts + [Swap(used), Publish(sup.status)];
      }
      backoff := sup.RecordAttemptFailed();
      CountsOneMore(sup);
      acts := acts + [Publish(sup.status)];
    }
  }

  lemma CountsOneMore(sup: ReconnectSupervisor)
    requires sup.Valid() && sup.history != [] && Failure(sup.history[|sup.history| - 1])
    ensures var n := FailuresInARow(sup.history);
            && n == FailuresInARow(sup.history[..|sup.history| - 1]) + 1
            && sup.status == StatusAfter(sup.policy, n, if sup.history[|sup.history| - 1].Drop? then DROPPED
                                                       else ATTEMPT_FAILED)
            && (sup.status.Failed? <==> Retry(sup.policy, n).None?)
  {
    RunCountsFailures(sup.policy, sup.history[..|sup.history| - 1]);
  }

  lemma ConnectClears(sup: ReconnectSupervisor)
    requires sup.Valid() && sup.history != [] && sup.history[|sup.history| - 1] == Connect
    ensures FailuresInARow(sup.history) == 0 && sup.status == Connected
  {
  }

  lemma NextOutage(policy: Policy, drops: nat, connects: seq<bool>, used: nat, next: nat, outages: seq<Outage>)
    requires used <= |connects| && drops > 0
    ensures var first := FirstOutage(policy, connects[used..]);
            && (!first.end.Restored? ==> outages + Outages(policy, drops, connects[used..]) == outages + [first])
            && (first.end.Restored? && next == used + FailedFirst(connects[used..]) + 1 ==>
                 next <= |connects| &&
                 outages + Outages(policy, drops, connects[used..]) ==
                 outages + [first] + Outages(policy, drops - 1, connects[next..]))
  {
    hide FirstOutage, FailedFirst;
    var rest := connects[used..];
    var first, n := FirstOutage(policy, rest), FailedFirst(rest);
    if first.end.Restored? {
      assert rest[n + 1..] == connects[used + n + 1..];
      var later := Outages(policy, drops - 1, rest[n + 1..]);
      assert outages + ([first] + later) == outages + [first] + later;
    }
  }

  lemma OneMoreOutage(policy: Policy, outages: seq<Outage>, outage: Outage)
    ensures Made(outages + [outage]) == Made(outages) + Connects(outage)
    ensures Acts(policy, outages + [outage]) == Acts(policy, outages) + Told(policy, outage, Made(outages))
  {
    assert (outages + [outage])[..|outages|] == outages;
  }

  /** The supervising loop over the first `drops` drops, with the connects that are observed. */
  method Supervise(policy: Policy, drops: nat, connects: seq<bool>)
    returns (outages: seq<Outage>, status: Status, acts: seq<Act>)
    ensures outages == Outages(policy, drops, connects)
    ensures acts == Acts(policy, outages)
    ensures status.Failed? <==> outages != [] && outages[|outages| - 1].end.GaveUp?
  {
    hide Run, FailuresInARow, FailedFirst, FirstOutage, Outages, Acts, Made, Connects, Told;
    var sup := new ReconnectSupervisor(policy);
    sup.RecordConnected();
    ConnectClears(sup);
    outages := [];
    acts := [Publish(sup.status)];
    var used: nat, left: nat := 0, drops;
    NothingYet(policy);
    assert connects[0..] == connects && [] + Outages(policy, drops, connects) == Outages(policy, drops, connects);
    while left > 0
      invariant used <= |connects| && fresh(sup) && sup.Valid() && sup.policy == policy
      invariant FailuresInARow(sup.history) == 0 && sup.status == Connected
      invariant outages + Outages(policy, left, connects[used..]) == Outages(policy, drops, connects)
      invariant outages == [] || outages[|outages| - 1].end.Restored?
      invariant acts == Acts(policy, outages) && used == Made(outages)
    {
      var outage, next, more := RetryAfterDrop(sup, connects, used);
      NextOutage(policy, left, connects, used, next, outages);
      OneMoreOutage(policy, outages, outage);
      outages, acts := outages + [outage], acts + more;
      if !outage.end.Restored? {
        status := sup.status;
        return;
      }
      used, left := next, left - 1;
    }
    NoMoreOutages(policy, connects[used..]);
    status := sup.status;
  }

  lemma NothingYet(policy: Policy)
    ensures Acts(policy, []) == [Publish(Connected)] && Made([]) == 0
  {
  }

  lemma NoMoreOutages(policy: Policy, connects: seq<bool>)
    ensures Outages(policy, 0, connects) == []
  {
  }

  // ---------------------------------------------------------------- what the loop guarantees

  lemma {:induction false} WaitsAre(policy: Policy, n: nat, i: nat)
    requires i < n
    ensures Waits(policy, n)[i] == BackoffFor(policy, i + 1)
  {
    if i < n - 1 { WaitsAre(policy, n - 1, i); }
  }

  /** In every outage: at most the allowed connects, each after its own wait, the waits never shrinking. */
  lemma {:induction false} EveryOutageIsBounded(policy: Policy, drops: nat, connects: seq<bool>, o: nat)
    requires o < |Outages(policy, drops, connects)|
    ensures var outage := Outages(policy, drops, connects)[o];
            |outage.waits| <= policy.maxAttempts &&
            (outage.end.GaveUp? ==> |outage.waits| == policy.maxAttempts) &&
            (!outage.end.Restored? ==> o == |Outages(policy, drops, connects)| - 1) &&
            (forall i :: 0 <= i < |outage.waits| ==> outage.waits[i] == BackoffFor(policy, i + 1)) &&
            (forall i, j :: 0 <= i <= j < |outage.waits| ==> outage.waits[i] <= outage.waits[j])
    decreases drops
  {
    hide BackoffFor, Waits;
    var first := FirstOutage(policy, connects);
    var n := |first.waits|;
    assert first.waits == Waits(policy, n);
    forall i | 0 <= i < n ensures first.waits[i] == BackoffFor(policy, i + 1) { WaitsAre(policy, n, i); }
    forall i, j | 0 <= i <= j < n ensures first.waits[i] <= first.waits[j] { BackoffGrows(policy, i + 1, j + 1); }
    if o > 0 {
      EveryOutageIsBounded(policy, drops - 1, connects[FailedFirst(connects) + 1..], o - 1);
    }
  }

  function Millis(d: Duration): nat {
    d / 1_000_000 % 0x1_0000_0000_0000_0000
  }

  /** One act may follow another. */
  predicate Follows(policy: Policy, connects: seq<bool>, before: Act, act: Act) {
    match act
    case Swap(k) => before.Publish? && before.status.Reconnecting? && 1 <= k <= |connects| && connects[k - 1]
    case Publish(Connected) => before.Swap?
    case Publish(Reconnecting(n, ms)) =>
      1 <= n <= policy.maxAttempts && ms == Millis(BackoffFor(policy, n)) &&
      before == Publish(if n == 1 then Connected else Reconnecting(n - 1, Millis(BackoffFor(policy, n - 1))))
    case Publish(Failed(reason)) =>
      before.Publish? && reason.Exhausted? && reason.attempts == policy.maxAttempts &&
      if policy.maxAttempts == 0 then before.status == Connected && reason.what == "connection dropped"
      else
        before.status.Reconnecting? && before.status.attempt == policy.maxAttempts &&
        reason.what == "reconnect attempt failed"
    case _ => false
  }

  predicate Chain(policy: Policy, connects: seq<bool>, acts: seq<Act>) {
    forall i :: 0 < i < |acts| ==> Follows(policy, connects, acts[i - 1], acts[i])
  }

  lemma ChainJoins(policy: Policy, connects: seq<bool>, front: seq<Act>, back: seq<Act>)
    requires front != [] && Chain(policy, connects, front)
    requires Chain(policy, connects, [front[|front| - 1]] + back)
    ensures Chain(policy, connects, front + back)
  {
    hide Follows;
    var all, rest := front + back, [front[|front| - 1]] + back;
    forall i | 0 < i < |all| ensures Follows(policy, connects, all[i - 1], all[i]) {
      if i >= |front| {
        assert all[i] == rest[i - |front| + 1] && all[i - 1] == rest[i - |front|];
      } else {
        assert all[i] == front[i] && all[i - 1] == front[i - 1];
      }
    }
  }

  /** From being connected on, failures are numbered upwards until the budget is spent. */
  lemma {:induction false} FailingIsChained(policy: Policy, connects: seq<bool>, n: nat)
    requires n <= policy.maxAttempts + 1
    ensures |Failing(policy, n)| == n
    ensures n > 0 ==> Failing(policy, n)[n - 1] ==
                        Publish(StatusAfter(policy, n, if n == 1 then DROPPED else ATTEMPT_FAILED))
    ensures Chain(policy, connects, [Publish(Connected)] + Failing(policy, n))
  {
    if n > 0 {
      FailingIsChained(policy, connects, n - 1);
      hide BackoffFor;
      var front := [Publish(Connected)] + Failing(policy, n - 1);
      var next := Publish(StatusAfter(policy, n, if n == 1 then DROPPED else ATTEMPT_FAILED));
      assert Follows(policy, connects, front[|front| - 1], next);
      ChainJoins(policy, connects, front, [next]);
      assert front + [next] == [Publish(Connected)] + Failing(policy, n);
    }
  }

  /** The acts of one outage fit together, and a restored one ends connected. */
  lemma ToldIsChained(policy: Policy, connects: seq<bool>, made: nat)
    requires made <= |connects|
    ensures var outage := FirstOutage(policy, connects[made..]);
            var told := Told(policy, outage, made);
            && Chain(policy, connects, [Publish(Connected)] + told)
            && (outage.end.Restored? ==> told != [] && told[|told| - 1] == Publish(Connected))
  {
    hide BackoffFor, Waits;
    var outage := FirstOutage(policy, connects[made..]);
    var n := |outage.waits|;
    if outage.end.GaveUp? {
      FailingIsChained(policy, connects, n + 1);
    } else {
      FailingIsChained(policy, connects, n);
      if outage.end.Restored? {
        var front, tail := [Publish(Connected)] + Failing(policy, n), [Swap(made + n), Publish(Connected)];
        assert connects[made..][n - 1] && n > 0;
        assert front[|front| - 1] == Failing(policy, n)[n - 1];
        hide Failing;
        assert Chain(policy, connects, [front[|front| - 1]] + tail);
        ChainJoins(policy, connects, front, tail);
        assert front + tail == [Publish(Connected)] + Told(policy, outage, made);
      }
    }
  }

  lemma {:induction false} MadeFirst(first: Outage, outages: seq<Outage>)
    ensures Made([first] + outages) == Connects(first) + Made(outages)
  {
    var all := [first] + outages;
    if outages == [] {
      assert all[..0] == [];
    } else {
      assert all[..|all| - 1] == [first] + outages[..|outages| - 1];
      MadeFirst(first, outages[..|outages| - 1]);
    }
  }

  /** Seen from the second outage on, everything is shifted by the connects of the first. */
  lemma Shifted(first: Outage, later: seq<Outage>, connects: seq<bool>, k: nat)
    requires 0 < k <= |later| && Connects(first) + Made(later[..k - 1]) <= |connects|
    ensures var outages, made := [first] + later, Made(later[..k - 1]);
            && outages[k] == later[k - 1] && Made(outages[..k]) == Connects(first) + made
            && connects[Connects(first)..][made..] == connects[Made(outages[..k])..]
  {
    hide Made, Connects;
    MadeFirst(first, later[..k - 1]);
    assert ([first] + later)[..k] == [first] + later[..k - 1];
  }

  lemma RestoredConnects(policy: Policy, connects: seq<bool>)
    ensures var first := FirstOutage(policy, connects);
            first.end.Restored? ==> Connects(first) == FailedFirst(connects) + 1
  {
  }

  /** Every outage begins where the connects of the ones before it end. */
  lemma {:induction false} OutageAt(policy: Policy, drops: nat, connects: seq<bool>, k: nat)
    requires k < |Outages(policy, drops, connects)|
    ensures var outages := Outages(policy, drops, connects);
            var made := Made(outages[..k]);
            && made <= |connects| && outages[k] == FirstOutage(policy, connects[made..])
            && (k < |outages| - 1 ==> outages[k].end.Restored?)
    decreases drops
  {
    hide Made, FirstOutage, FailedFirst, Connects;
    RestoredConnects(policy, connects);
    var outages := Outages(policy, drops, connects);
    var n := FailedFirst(connects);
    if k == 0 {
      NothingYet(policy);
      assert outages[..0] == [] && connects[0..] == connects;
    } else {
      var rest, later := connects[n + 1..], Outages(policy, drops - 1, connects[n + 1..]);
      assert outages == [outages[0]] + later && outages[0] == FirstOutage(policy, connects);
      hide Outages;
      OutageAt(policy, drops - 1, rest, k - 1);
      Shifted(outages[0], later, connects, k);
    }
  }

  lemma {:induction false} ActsAreChained(policy: Policy, drops: nat, connects: seq<bool>, k: nat)
    requires k <= |Outages(policy, drops, connects)|
    ensures var outages := Outages(policy, drops, connects);
            var acts := Acts(policy, outages[..k]);
            && acts != [] && Chain(policy, connects, acts)
            && (k == 0 || outages[k - 1].end.Restored? ==> acts[|acts| - 1] == Publish(Connected))
    decreases k
  {
    hide Outages, FirstOutage, Chain, Told, Made;
    var outages := Outages(policy, drops, connects);
    if k == 0 {
      assert Chain(policy, connects, [Publish(Connected)]) by { OneActIsChained(policy, connects); }
    } else {
      ActsAreChained(policy, drops, connects, k - 1);
      OutageAt(policy, drops, connects, k - 1);
      var earlier := outages[..k - 1];
      assert outages[..k][..k - 1] == earlier;
      ToldIsChained(policy, connects, Made(earlier));
      if k > 1 { OutageAt(policy, drops, connects, k - 2); }
      ChainJoins(policy, connects, Acts(policy, earlier), Told(policy, outages[k - 1], Made(earlier)));
    }
  }

  lemma OneActIsChained(policy: Policy, connects: seq<bool>)
    ensures Chain(policy, connects, [Publish(Connected)])
  {
  }

  /**
   * Over a whole session: attempts are published numbered from 1 with their waits, `Connected` only after the broker
   * was pointed at a session that really connected, and giving up last of all, with the budget spent.
   */
  lemma WhatIsToldIsTrue(policy: Policy, drops: nat, connects: seq<bool>)
    ensures var acts := Acts(policy, Outages(policy, drops, connects));
            && acts != [] && acts[0] == Publish(Connected) && Chain(policy, connects, acts)
            && forall i :: 0 <= i < |acts| - 1 ==> !(acts[i].Publish? && acts[i].status.Failed?)
  {
    hide Outages, Acts, BackoffFor;
    var outages := Outages(policy, drops, connects);
    ActsAreChained(policy, drops, connects, |outages|);
    assert outages[..|outages|] == outages;
    ActsBegin(policy, outages);
    var acts := Acts(policy, outages);
    forall i | 0 <= i < |acts| - 1 ensures !(acts[i].Publish? && acts[i].status.Failed?) {
      assert Follows(policy, connects, acts[i], acts[i + 1]);
    }
  }

  lemma {:induction false} ActsBegin(policy: Policy, outages: seq<Outage>)
    ensures var acts := Acts(policy, outages); acts != [] && acts[0] == Publish(Connected)
  {
    if outages != [] { ActsBegin(policy, outages[..|outages| - 1]); }
  }

  /** How many of the connects work. */
  function Works(connects: seq<bool>): nat {
    if connects == [] then 0 else (if connects[0] then 1 else 0) + Works(connects[1..])
  }

  /** `n` connects in a row fail somewhere before the last of the drops is repaired. */
  ghost predicate FailsInARow(drops: nat, connects: seq<bool>, n: nat) {
    exists i :: 0 <= i <= |connects| - n && AllFail(connects, i, n) && Works(connects[..i]) < drops
  }

  predicate AllFail(connects: seq<bool>, i: nat, n: nat)
    requires i + n <= |connects|
  {
    forall j :: i <= j < i + n ==> !connects[j]
  }

  /** The supervisor gives up exactly when as many connects fail in a row as the policy allows. */
  lemma {:induction false} GivesUpExactlyWhen(policy: Policy, drops: nat, connects: seq<bool>)
    ensures (exists outage :: outage in Outages(policy, drops, connects) && outage.end.GaveUp?) <==>
            FailsInARow(drops, connects, policy.maxAttempts)
    decreases drops
  {
    hide Waits;
    if drops > 0 {
      var n := FailedFirst(connects);
      var first := FirstOutage(policy, connects);
      assert Outages(policy, drops, connects)[0] == first;
      if first.end.GaveUp? {
        assert connects[..0] == [] && AllFail(connects, 0, policy.maxAttempts);
      } else if first.end.StillTrying? {
        assert forall outage :: outage in Outages(policy, drops, connects) ==> outage == first;
      } else {
        GivesUpExactlyWhen(policy, drops - 1, connects[n + 1..]);
        assert Outages(policy, drops, connects) == [first] + Outages(policy, drops - 1, connects[n + 1..]);
        FailuresAfterSuccess(drops, connects, n, policy.maxAttempts);
      }
    }
  }

  lemma {:induction false} WorksAfter(connects: seq<bool>, n: nat)
    requires n < |connects| && connects[n] && forall i :: 0 <= i < n ==> !connects[i]
    ensures Works(connects) == 1 + Works(connects[n + 1..])
  {
    if n > 0 {
      WorksAfter(connects[1..], n - 1);
      assert connects[1..][n..] == connects[n + 1..];
    }
  }

  /** A run of failures longer than the first one lies behind the first success. */
  lemma FailuresAfterSuccess(drops: nat, connects: seq<bool>, n: nat, max: nat)
    requires drops > 0 && n < max && n < |connects| && connects[n] && forall i :: 0 <= i < n ==> !connects[i]
    ensures FailsInARow(drops, connects, max) <==> FailsInARow(drops - 1, connects[n + 1..], max)
  {
    hide Works;
    var rest := connects[n + 1..];
    if FailsInARow(drops, connects, max) {
      var i :| 0 <= i <= |connects| - max && AllFail(connects, i, max) && Works(connects[..i]) < drops;
      assert i > n;
      WorksAfter(connects[..i], n);
      assert connects[..i][n + 1..] == rest[..i - n - 1];
      assert AllFail(rest, i - n - 1, max);
    }
    if FailsInARow(drops - 1, rest, max) {
      var i :| 0 <= i <= |rest| - max && AllFail(rest, i, max) && Works(rest[..i]) < drops - 1;
      assert forall j :: i + n + 1 <= j < i + n + 1 + max ==> connects[j] == rest[j - n - 1];
      WorksAfter(connects[..i + n + 1], n);
      assert connects[..i + n + 1][n + 1..] == rest[..i];
      assert AllFail(connects, i + n + 1, max);
    }
  }
}
