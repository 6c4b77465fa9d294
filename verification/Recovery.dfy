/** Exponential backoff over real seconds, with a ceiling. */
module BackoffSchedules {

  datatype Schedule = Schedule(base: real, max: real, factor: real)

  function Power(x: real, n: nat): real {
    if n == 0 then 1.0 else x * Power(x, n - 1)
  }

  const EXPONENT_CAP: nat := 1024

  function Capped(grown: real, max: real): real {
    if grown >= max then max else grown
  }

  /** The exponential wait, without the ceiling. */
  function Grown(s: Schedule, n: nat): real {
    s.base * Power(s.factor, n)
  }

  /** The wait before the retry with this index, counted from 0. */
  function DelayFor(s: Schedule, attempt: nat): real {
    Capped(Grown(s, if attempt < EXPONENT_CAP then attempt else EXPONENT_CAP), s.max)
  }

  predicate Growing(s: Schedule) { s.base > 0.0 && s.factor >= 1.0 }

  lemma {:induction false} PowerGrows(x: real, m: nat, n: nat)
    requires x >= 1.0 && m <= n
    ensures 1.0 <= Power(x, m) <= Power(x, n)
    ensures x > 1.0 && m < n ==> Power(x, m) < Power(x, n)
    decreases n
  {
    if m < n {
      PowerGrows(x, m, n - 1);
      var p := Power(x, n - 1);
      assert x * p - p == (x - 1.0) * p;
    } else if n > 0 {
      PowerGrows(x, n - 1, n - 1);
      var p := Power(x, n - 1);
      assert x * p - p == (x - 1.0) * p;
    }
  }

  lemma GrownGrows(s: Schedule, m: nat, n: nat)
    requires Growing(s) && m <= n
    ensures Grown(s, m) <= Grown(s, n)
    ensures s.factor > 1.0 && m < n ==> Grown(s, m) < Grown(s, n)
    ensures s.factor == 1.0 ==> Grown(s, m) == Grown(s, n)
  {
    PowerGrows(s.factor, m, n);
    var p, q := Power(s.factor, m), Power(s.factor, n);
    assert s.base * q - s.base * p == s.base * (q - p);
    if s.factor == 1.0 {
      PowerOfOne(m);
      PowerOfOne(n);
    }
  }

  /** Waits never shrink and never exceed the ceiling. */
  lemma DelayGrows(s: Schedule, a: nat, b: nat)
    requires Growing(s) && a <= b
    ensures DelayFor(s, a) <= DelayFor(s, b) <= s.max
  {
    hide Grown;
    GrownGrows(s, if a < EXPONENT_CAP then a else EXPONENT_CAP, if b < EXPONENT_CAP then b else EXPONENT_CAP);
  }

  /** The first wait is the base, and each next one is longer by the factor, until the ceiling is met. */
  lemma DelayIsExponential(s: Schedule, n: nat)
    requires Growing(s) && s.max >= 0.0
    ensures DelayFor(s, 0) == if s.base < s.max then s.base else s.max
    ensures n < 1024 ==>
              var next := s.factor * DelayFor(s, n); DelayFor(s, n + 1) == if next < s.max then next else s.max
    ensures n >= 1024 ==> DelayFor(s, n) == DelayFor(s, 1024)
  {
    GrownStep(s, n);
    hide Grown;
    Scaled(s.factor, Grown(s, n), s.max);
  }

  lemma GrownStep(s: Schedule, n: nat)
    ensures Grown(s, 0) == s.base && Grown(s, n + 1) == s.factor * Grown(s, n)
  {
    var p := Power(s.factor, n);
    assert Power(s.factor, n + 1) == s.factor * p;
    hide Power;
    Swap(s.factor, s.base, p);
  }

  lemma Swap(a: real, b: real, c: real)
    ensures a * (b * c) == b * (a * c)
  {
  }

  /** Cutting at the ceiling before or after growing makes no difference. */
  lemma Scaled(factor: real, grown: real, max: real)
    requires factor >= 1.0 && max >= 0.0
    ensures grown >= max ==> factor * grown >= max && factor * max >= max
  {
    if grown >= max {
      assert factor * grown - grown == (factor - 1.0) * grown;
      assert factor * max - max == (factor - 1.0) * max;
    }
  }

  /** The cap on the exponent shows exactly when the ceiling has not been reached by then and the waits still grow. */
  lemma ExponentCapShowsExactlyWhen(s: Schedule, n: nat)
    requires Growing(s) && n > EXPONENT_CAP
    ensures DelayFor(s, n) != Capped(Grown(s, n), s.max) <==> s.factor > 1.0 && Grown(s, EXPONENT_CAP) < s.max
  {
    hide Grown;
    GrownGrows(s, EXPONENT_CAP, n);
  }

  lemma {:induction false} PowerOfOne(n: nat)
    ensures Power(1.0, n) == 1.0
  {
    if n > 0 { PowerOfOne(n - 1); }
  }
}

/** The recovery gate: one attempt at a time, and only so many until things have been calm. */
module RecoveryGuards {
  import opened BackoffSchedules

  datatype Decision = Recover(attempt: nat, delay: real) | Duplicate | GiveUp

  datatype Config = Config(schedule: Schedule, maxRetries: nat, cooldown: real)

  datatype Event = Failure | Recovered | RecoveryFailed | StableFor(time: real)

  /** What happened, as the outside saw it. */
  datatype Entry = Decided(decision: Decision) | Marked(ok: bool) | Calm(reset: bool)

  class RecoveryGuard {
    const config: Config
    var attempts: nat
    var recovering: bool
    var generation: nat
    ghost var log: seq<Entry>

    /** The fields say of the past exactly what the log says. */
    ghost predicate Valid()
      reads this
    {
      && attempts == RecoversSinceReset(log)
      && recovering == Unmarked(log)
      && generation == Recoveries(log)
      && Lawful(config, log)
    }

    constructor (config: Config)
      ensures Valid() && log == [] && this.config == config
    {
      this.config, attempts, recovering, generation, log := config, 0, false, 0, [];
    }

    method OnFailure() returns (d: Decision)
      requires Valid()
      modifies this
      ensures Valid() && log == old(log) + [Decided(d)]
      ensures d == Answer(config, old(log))
    {
      hide RecoversSinceReset, Unmarked, Recoveries, Lawful, DelayFor;
      if recovering {
        d := Duplicate;
      } else if attempts >= config.maxRetries {
        d := GiveUp;
      } else {
        var delay := DelayFor(config.schedule, attempts);
        attempts := attempts + 1;
        recovering := true;
        d := Recover(attempts, delay);
      }
      LogGrows(config, log, Decided(d));
      log := log + [Decided(d)];
    }

    method MarkRecovered()
      requires Valid()
      modifies this
      ensures Valid() && log == old(log) + [Marked(true)]
    {
      hide RecoversSinceReset, Unmarked, Recoveries, Lawful;
      recovering := false;
      generation := generation + 1;
      LogGrows(config, log, Marked(true));
      log := log + [Marked(true)];
    }

    method MarkFailed()
      requires Valid()
      modifies this
      ensures Valid() && log == old(log) + [Marked(false)]
    {
      hide RecoversSinceReset, Unmarked, Recoveries, Lawful;
      recovering := false;
      LogGrows(config, log, Marked(false));
      log := log + [Marked(false)];
    }

    method CooldownElapsed(stableFor: real) returns (reset: bool)
      requires Valid()
      modifies this
      ensures Valid() && log == old(log) + [Calm(reset)]
      ensures reset <==> stableFor >= config.cooldown
    {
      hide RecoversSinceReset, Unmarked, Recoveries, Lawful;
      reset := stableFor >= config.cooldown;
      if reset {
        attempts := 0;
      }
      LogGrows(config, log, Calm(reset));
      log := log + [Calm(reset)];
    }
  }

  // ---------------------------------------------------------------- what the log says

  /** Recoveries begun since the budget was last reset. */
  function RecoversSinceReset(log: seq<Entry>): nat {
    if log == [] then 0
    else
      var last := log[|log| - 1];
      if last == Calm(true) then 0
      else RecoversSinceReset(log[..|log| - 1]) + (if last.Decided? && last.decision.Recover? then 1 else 0)
  }

  /** The last recovery begun has not been marked either way. */
  predicate Unmarked(log: seq<Entry>) {
    log != [] &&
    var last := log[|log| - 1];
    (last.Decided? && last.decision.Recover?) || (!last.Marked? && Unmarked(log[..|log| - 1]))
  }

  function Recoveries(log: seq<Entry>): nat {
    if log == [] then 0 else Recoveries(log[..|log| - 1]) + (if log[|log| - 1] == Marked(true) then 1 else 0)
  }

  /** What a failure must be answered after this past. */
  function Answer(config: Config, log: seq<Entry>): Decision {
    var spent := RecoversSinceReset(log);
    if Unmarked(log) then Duplicate
    else if spent >= config.maxRetries then GiveUp
    else Recover(spent + 1, DelayFor(config.schedule, spent))
  }

  /** Every decision was the answer its past called for. */
  predicate Lawful(config: Config, log: seq<Entry>) {
    forall i :: 0 <= i < |log| && log[i].Decided? ==> log[i].decision == Answer(config, log[..i])
  }

  /** What one more entry changes. */
  lemma LogGrows(config: Config, log: seq<Entry>, e: Entry)
    requires Lawful(config, log) && (e.Decided? ==> e.decision == Answer(config, log))
    ensures Lawful(config, log + [e])
    ensures RecoversSinceReset(log + [e]) ==
            if e == Calm(true) then 0 else RecoversSinceReset(log) + if Begins(e) then 1 else 0
    ensures Unmarked(log + [e]) <==> Begins(e) || (!e.Marked? && Unmarked(log))
    ensures Recoveries(log + [e]) == Recoveries(log) + if e == Marked(true) then 1 else 0
  {
    var all := log + [e];
    assert all[..|log|] == log && all[|log|] == e;
    hide Answer, RecoversSinceReset, Unmarked, Recoveries;
    forall i | 0 <= i < |all| && all[i].Decided? ensures all[i].decision == Answer(config, all[..i]) {
      assert all[..i] == log[..i];
    }
  }

  // ---------------------------------------------------------------- over whole runs

  lemma LawfulPrefix(config: Config, log: seq<Entry>, n: nat)
    requires Lawful(config, log) && n <= |log|
    ensures Lawful(config, log[..n])
  {
    hide Answer;
    forall i | 0 <= i < n && log[..n][i].Decided? ensures log[..n][i].decision == Answer(config, log[..n][..i]) {
      assert log[..n][..i] == log[..i];
    }
  }

  /** How many recoveries begin in a stretch of the log. */
  function Count(log: seq<Entry>): nat {
    if log == [] then 0 else Count(log[..|log| - 1]) + (if Begins(log[|log| - 1]) then 1 else 0)
  }

  lemma {:induction false} CountSinceReset(log: seq<Entry>, r: nat)
    requires r <= |log| && Calm(true) !in log[r..]
    ensures Count(log[r..]) <= RecoversSinceReset(log)
    ensures r == 0 || log[r - 1] == Calm(true) ==> Count(log[r..]) == RecoversSinceReset(log)
    decreases |log|
  {
    if r < |log| {
      var front := log[..|log| - 1];
      assert log[r..][..|log[r..]| - 1] == front[r..];
      assert log[|log| - 1] in log[r..];
      forall e | e in front[r..] ensures e in log[r..] {}
      CountSinceReset(front, r);
    } else {
      assert log[r..] == [];
    }
  }

  /** A recovery is under way when one has begun and neither way of ending it was marked since. */
  ghost predicate UnderWay(log: seq<Entry>) {
    exists k :: 0 <= k < |log| && Begins(log[k]) && forall m :: k < m < |log| ==> !log[m].Marked?
  }

  lemma {:induction false} UnmarkedIsUnderWay(log: seq<Entry>)
    ensures Unmarked(log) <==> UnderWay(log)
  {
    if log != [] {
      var front, last := log[..|log| - 1], log[|log| - 1];
      UnmarkedIsUnderWay(front);
      if Begins(last) {
        assert UnderWay(log);
      } else if UnderWay(front) && !last.Marked? {
        var k :| 0 <= k < |front| && Begins(front[k]) && forall m :: k < m < |front| ==> !front[m].Marked?;
        assert Begins(log[k]);
        forall m | k < m < |log| ensures !log[m].Marked? {
          if m < |front| { assert front[m] == log[m]; }
        }
      }
      if UnderWay(log) && !Begins(last) {
        var k :| 0 <= k < |log| && Begins(log[k]) && forall m :: k < m < |log| ==> !log[m].Marked?;
        assert Begins(front[k]);
        assert forall m :: k < m < |front| ==> front[m] == log[m];
      }
    }
  }

  /**
   * Every decision, told from the log alone. While a recovery is under way it is `Duplicate`. Otherwise, with `r`
   * behind the last reset, it is the next attempt with its delay, or giving up when the attempts since `r` use up the
   * budget.
   */
  lemma DecisionsAreDue(config: Config, log: seq<Entry>, i: nat, r: nat)
    requires Lawful(config, log) && i < |log| && log[i].Decided?
    requires r <= i && (r == 0 || log[r - 1] == Calm(true)) && Calm(true) !in log[r..i]
    ensures var spent := Count(log[r..i]);
            log[i].decision ==
            if UnderWay(log[..i]) then Duplicate
            else if spent >= config.maxRetries then GiveUp
            else Recover(spent + 1, DelayFor(config.schedule, spent))
  {
    hide RecoversSinceReset, Unmarked, UnderWay, DelayFor, Count;
    assert log[i].decision == Answer(config, log[..i]);
    UnmarkedIsUnderWay(log[..i]);
    assert log[..i][r..] == log[r..i];
    assert r > 0 ==> log[..i][r - 1] == log[r - 1];
    CountSinceReset(log[..i], r);
  }

  /** Never more recoveries between two resets than the budget allows. */
  lemma BudgetHoldsBetween(config: Config, log: seq<Entry>, i: nat, j: nat)
    requires Lawful(config, log) && i <= j <= |log| && Calm(true) !in log[i..j]
    ensures Count(log[i..j]) <= config.maxRetries
  {
    LawfulPrefix(config, log, j);
    hide Lawful, RecoversSinceReset, Count;
    assert log[..j][i..] == log[i..j];
    CountSinceReset(log[..j], i);
    BudgetHolds(config, log[..j]);
  }

  /** Nor more since the last reset. */
  lemma {:induction false} BudgetHolds(config: Config, log: seq<Entry>)
    requires Lawful(config, log)
    ensures RecoversSinceReset(log) <= config.maxRetries
  {
    if log != [] {
      var n := |log| - 1;
      LawfulPrefix(config, log, n);
      BudgetHolds(config, log[..n]);
    }
  }

  predicate Begins(e: Entry) { e.Decided? && e.decision.Recover? }

  /** While a recovery is unmarked no other begins: between two of them there is a mark. */
  lemma {:induction false} RecoveriesAreSeparated(config: Config, log: seq<Entry>, i: nat, j: nat)
    requires Lawful(config, log) && i < j < |log| && Begins(log[i]) && Begins(log[j])
    ensures exists k :: i < k < j && log[k].Marked?
  {
    assert log[j].decision == Answer(config, log[..j]);
    if forall k :: i < k < j ==> !log[k].Marked? {
      StaysUnmarked(log, i, j);
    }
  }

  lemma {:induction false} StaysUnmarked(log: seq<Entry>, i: nat, j: nat)
    requires i < j <= |log| && Begins(log[i]) && forall k :: i < k < j ==> !log[k].Marked?
    ensures Unmarked(log[..j])
  {
    assert log[..j][..j - 1] == log[..j - 1];
    if j > i + 1 { StaysUnmarked(log, i, j - 1); }
  }

  /** With growing waits, later recoveries of one budget wait at least as long as earlier ones. */
  lemma {:induction false} WaitsGrowWithinBudget(config: Config, log: seq<Entry>, i: nat, j: nat)
    requires Lawful(config, log) && Growing(config.schedule)
    requires i < j < |log| && Begins(log[i]) && Begins(log[j]) && Calm(true) !in log[i..j]
    ensures log[i].decision.attempt < log[j].decision.attempt && log[i].decision.delay <= log[j].decision.delay
  {
    assert log[i].decision == Answer(config, log[..i]) && log[j].decision == Answer(config, log[..j]);
    SpentGrows(log, i, j);
    DelayGrows(config.schedule, RecoversSinceReset(log[..i]), RecoversSinceReset(log[..j]));
  }

  lemma {:induction false} SpentGrows(log: seq<Entry>, i: nat, j: nat)
    requires i < j <= |log| && Begins(log[i]) && Calm(true) !in log[i..j]
    ensures RecoversSinceReset(log[..j]) > RecoversSinceReset(log[..i])
  {
    assert log[..j][..j - 1] == log[..j - 1];
    assert log[j - 1] in log[i..j];
    if j > i + 1 {
      assert forall e :: e in log[i..j - 1] ==> e in log[i..j];
      SpentGrows(log, i, j - 1);
    }
  }
}

/** Reconnecting the debugging socket: plan, try, and degrade when the budget is spent. */
module CdpReconnect {
  import opened BackoffSchedules

  datatype Policy = Policy(schedule: Schedule, maxAttempts: nat)

  datatype Step = Retry(attempt: nat, delay: real) | Degrade

  datatype Outcome = Reconnected(attempt: nat) | Degraded

  function PlanReconnect(policy: Policy, attemptsDone: nat): Step {
    if attemptsDone >= policy.maxAttempts then Degrade
    else Retry(attemptsDone + 1, DelayFor(policy.schedule, attemptsDone))
  }

  /**
   * `connect` tells how the attempt with each number turns out. The result is the first attempt within the budget that
   * works; every attempt made was waited for, and none is made beyond it.
   */
  method RunReconnect(policy: Policy, connect: nat -> bool) returns (r: Outcome, waits: seq<real>)
    ensures |waits| <= policy.maxAttempts
    ensures forall i :: 0 <= i < |waits| ==> waits[i] == DelayFor(policy.schedule, i)
    ensures r.Reconnected? ==> r.attempt == |waits| > 0 && connect(r.attempt)
    ensures forall k :: 1 <= k <= |waits| && r != Reconnected(k) ==> !connect(k)
    ensures r.Degraded? ==> |waits| == policy.maxAttempts
  {
    hide DelayFor;
    waits := [];
    var attemptsDone := 0;
    while true
      invariant attemptsDone == |waits| <= policy.maxAttempts
      invariant forall i :: 0 <= i < |waits| ==> waits[i] == DelayFor(policy.schedule, i)
      invariant forall k :: 1 <= k <= attemptsDone ==> !connect(k)
      decreases policy.maxAttempts - attemptsDone
    {
      match PlanReconnect(policy, attemptsDone)
      case Degrade => return Degraded, waits;
      case Retry(attempt, delay) =>
        waits := waits + [delay];
        if connect(attempt) {
          return Reconnected(attempt), waits;
        }
        attemptsDone := attemptsDone + 1;
    }
  }
}
