/** Taking checkpoints at regular ticks of a simulation that may also stop for reasons of its
    own, among them checkpoint requests of the simulated program. */
module PeriodicCheckpoints {
  import opened Common
  import opened DivFacts

  /** `Limit`: the requested ticks have passed. `Request`: the program asked for a checkpoint. */
  datatype Cause = Limit | Request | Other

  /** How the simulator answers one call. Anything but `Limit` may come early. */
  datatype Response = Response(cause: Cause, after: nat)

  /** A simulator: its answers to come and the current tick. Without answers left it has ended. */
  datatype Sim = Sim(script: seq<Response>, tick: int)

  datatype Exited = Exited(sim: Sim, cause: Cause)

  function Simulate(s: Sim, n: nat): (e: Exited)
    ensures s.tick <= e.sim.tick <= s.tick + n
    ensures e.cause == Limit ==> e.sim.tick == s.tick + n
    ensures |e.sim.script| == if s.script == [] then 0 else |s.script| - 1
    ensures e.cause != Other ==> s.script != []
  {
    if s.script == [] then Exited(s, Other)
    else
      var r, rest := s.script[0], s.script[1..];
      if r.cause == Limit then Exited(Sim(rest, s.tick + n), Limit)
      else Exited(Sim(rest, s.tick + Min(r.after, n)), r.cause)
  }

  /** Keeps going to `target` as long as the program only requests checkpoints. */
  function Resume(e: Exited, target: int): (r: Exited)
    requires e.sim.tick <= target
    requires e.cause == Limit ==> e.sim.tick == target
    ensures r.sim.tick <= target && (r.cause == Limit ==> r.sim.tick == target) && r.cause != Request
    ensures |r.sim.script| <= |e.sim.script|
    decreases |e.sim.script|, if e.cause == Request then 1 else 0
  {
    if e.cause == Request then Resume(Simulate(e.sim, target - e.sim.tick), target) else e
  }

  datatype Config = Config(when: int, period: nat, maxTick: int, maxCheckpoints: int)

  /** `badLimit`: the final stretch would have had a negative length. */
  datatype Outcome = Outcome(log: seq<int>, badLimit: bool)

  /** The loop over the periods. Its condition looks at the answer to the first call of the
      previous period, not at the one that ended that period. */
  function Periods(c: Config, s: Sim, cause: Cause, log: seq<int>, t: int): Outcome
    requires cause == Limit ==> s.tick == t
    decreases |s.script|, if cause == Limit then 1 else 0
  {
    if |log| >= c.maxCheckpoints || cause != Limit then Outcome(log, false)
    else if t + c.period > c.maxTick then Outcome(log, c.maxTick < t)
    else
      var t' := t + c.period;
      var first := Simulate(s, c.period);
      var last := Resume(first, t');
      Periods(c, last.sim, first.cause, if last.cause == Limit then log + [last.sim.tick] else log, t')
  }

  /** Runs to `target`, passing over requests. */
  function RunTo(s: Sim, target: int): (e: Exited)
    requires s.tick <= target
    ensures e.sim.tick <= target && (e.cause == Limit ==> e.sim.tick == target) && e.cause != Request
  {
    Resume(Simulate(s, target - s.tick), target)
  }

  function Checkpoints(c: Config, s: Sim): Outcome
    requires s.tick <= c.when
  {
    var e := RunTo(s, c.when);
    Periods(c, e.sim, e.cause, if e.cause == Limit then [e.sim.tick] else [], c.when)
  }

  // ---------- the script ----------

  class Simulator {
    var state: Sim

    constructor (s: Sim)
      ensures state == s
    {
      state := s;
    }

    method Advance(n: nat) returns (cause: Cause)
      modifies this
      ensures Exited(state, cause) == Simulate(old(state), n)
    {
      var e := Simulate(state, n);
      state := e.sim;
      cause := e.cause;
    }
  }

  method ScriptCheckpoints(c: Config, m5: Simulator) returns (log: seq<int>, badLimit: bool)
    requires m5.state.tick <= c.when
    modifies m5
    ensures Outcome(log, badLimit) == Checkpoints(c, old(m5.state))
  {
    log, badLimit := [], false;
    var start := m5.state;
    var exitCause := m5.Advance(c.when - m5.state.tick);
    exitCause := ResumeTo(m5, exitCause, c.when);
    if exitCause == Limit {
      log := [m5.state.tick];
    }
    var simTicks := c.when;
    while |log| < c.maxCheckpoints && exitCause == Limit
      invariant exitCause == Limit ==> m5.state.tick == simTicks
      invariant !badLimit && Checkpoints(c, start) == Periods(c, m5.state, exitCause, log, simTicks)
      decreases |m5.state.script|, if exitCause == Limit then 1 else 0
    {
      if simTicks + c.period > c.maxTick {
        if c.maxTick < simTicks {
          badLimit := true;
        } else {
          exitCause := m5.Advance(c.maxTick - simTicks);
        }
        return;
      }
      exitCause := m5.Advance(c.period);
      simTicks := simTicks + c.period;
      var last := ResumeTo(m5, exitCause, simTicks);
      if last == Limit {
        log := log + [m5.state.tick];
      }
    }
  }

  method ResumeTo(m5: Simulator, cause: Cause, target: int) returns (last: Cause)
    requires m5.state.tick <= target && (cause == Limit ==> m5.state.tick == target)
    modifies m5
    ensures Exited(m5.state, last) == Resume(Exited(old(m5.state), cause), target)
  {
    last := cause;
    while last == Request
      invariant m5.state.tick <= target && (last == Limit ==> m5.state.tick == target)
      invariant Resume(Exited(m5.state, last), target) == Resume(Exited(old(m5.state), cause), target)
      decreases |m5.state.script|, if last == Request then 1 else 0
    {
      last := m5.Advance(target - m5.state.tick);
    }
  }

  // ---------- where checkpoints are taken ----------

  ghost predicate OnSchedule(c: Config, log: seq<int>) {
    && (forall k :: 0 <= k < |log| ==> log[k] == c.when + k * c.period)
    && (forall k :: 1 <= k < |log| ==> log[k] <= c.maxTick)
  }

  lemma {:induction false} PeriodsOnSchedule(c: Config, s: Sim, cause: Cause, log: seq<int>, t: int)
    requires cause == Limit ==> s.tick == t
    requires cause == Limit ==> |log| >= 1 && t == c.when + (|log| - 1) * c.period
    requires OnSchedule(c, log)
    ensures var o := Periods(c, s, cause, log, t);
            OnSchedule(c, o.log) && |log| <= |o.log| && (|o.log| <= |log| || |o.log| <= c.maxCheckpoints)
    decreases |s.script|, if cause == Limit then 1 else 0
  {
    if |log| < c.maxCheckpoints && cause == Limit && t + c.period <= c.maxTick {
      var t' := t + c.period;
      var first := Simulate(s, c.period);
      var last := Resume(first, t');
      var log' := if last.cause == Limit then log + [last.sim.tick] else log;
      assert t' == c.when + |log| * c.period by { OneMore(|log| - 1, c.period); }
      PeriodsOnSchedule(c, last.sim, first.cause, log', t');
    }
  }

  /** Whatever the simulator does: checkpoints are taken at when, when + period, when + 2 period, ...
      without a gap, none but the first after the last tick, and no more than asked for. */
  lemma CheckpointsOnSchedule(c: Config, s: Sim)
    requires s.tick <= c.when
    ensures var log := Checkpoints(c, s).log;
            OnSchedule(c, log) && (|log| <= 1 || |log| <= c.maxCheckpoints)
  {
    var e := RunTo(s, c.when);
    var log := if e.cause == Limit then [e.sim.tick] else [];
    PeriodsOnSchedule(c, e.sim, e.cause, log, c.when);
  }

  // ---------- how many checkpoints are taken ----------

  /** How many more periods the options allow, from tick `t` with `n` checkpoints taken. */
  function Room(c: Config, t: int, n: nat): nat
    decreases c.maxCheckpoints - n
  {
    if n >= c.maxCheckpoints || t + c.period > c.maxTick then 0 else 1 + Room(c, t + c.period, n + 1)
  }

  /** How many answers at the head of a script are `Limit`. */
  function LeadingLimits(script: seq<Response>): nat {
    if script == [] || script[0].cause != Limit then 0 else 1 + LeadingLimits(script[1..])
  }

  /** The script without the program's requests. */
  function WithoutRequests(script: seq<Response>): seq<Response> {
    if script == [] then []
    else (if script[0].cause == Request then [] else [script[0]]) + WithoutRequests(script[1..])
  }

  /** Leaving the requests out changes neither where the run ends nor what is left of the script. */
  lemma {:induction false} RunToFiltered(s: Sim, f: Sim, target: int)
    requires s.tick <= target && f.tick <= target && f.script == WithoutRequests(s.script)
    ensures RunTo(s, target).cause == RunTo(f, target).cause
    ensures RunTo(f, target).sim.script == WithoutRequests(RunTo(s, target).sim.script)
    ensures RunTo(s, target).cause == Limit <==> LeadingLimits(f.script) > 0
    decreases |s.script|
  {
    if s.script != [] && s.script[0].cause == Request {
      assert WithoutRequests(s.script) == [] + WithoutRequests(s.script[1..]) == WithoutRequests(s.script[1..]);
      RunToFiltered(Simulate(s, target - s.tick).sim, f, target);
    } else if s.script != [] {
      assert f.script[0] == s.script[0] && f.script[1..] == WithoutRequests(s.script[1..]);
    }
  }

  /** One more checkpoint is taken if the period interrupted by a request is completed. */
  function Bonus(script: seq<Response>): nat {
    if script != [] && script[0].cause == Request && LeadingLimits(WithoutRequests(script)) > 0 then 1 else 0
  }

  lemma {:induction false} LimitsAreThere(script: seq<Response>)
    ensures LeadingLimits(script) <= |script|
    ensures LeadingLimits(WithoutRequests(script)) ==
            LeadingLimits(script) + LeadingLimits(WithoutRequests(script[LeadingLimits(script)..]))
  {
    if LeadingLimits(script) > 0 {
      LimitsAreThere(script[1..]);
      var p := LeadingLimits(script);
      assert script[1..][p - 1..] == script[p..];
      assert WithoutRequests(script)[1..] == WithoutRequests(script[1..]);
    } else {
      assert script[0..] == script;
    }
  }

  /** The exact number of checkpoints added by the loop. */
  lemma {:induction false} PeriodsCount(c: Config, s: Sim, log: seq<int>, t: int)
    requires s.tick == t
    ensures var p, room := LeadingLimits(s.script), Room(c, t, |log|);
            p <= |s.script| &&
            |Periods(c, s, Limit, log, t).log| == |log| + if p >= room then room else p + Bonus(s.script[p..])
    decreases |s.script|
  {
    var p := LeadingLimits(s.script);
    LimitsAreThere(s.script);
    if Room(c, t, |log|) > 0 {
      var t' := t + c.period;
      var first := Simulate(s, c.period);
      if p > 0 {
        PeriodsCount(c, first.sim, log + [t'], t');
        assert s.script[1..][p - 1..] == s.script[p..];
      } else {
        assert s.script[0..] == s.script;
        if first.cause == Request { OneInterrupted(c, s, log, t); }
      }
    }
  }

  lemma OneInterrupted(c: Config, s: Sim, log: seq<int>, t: int)
    requires s.tick == t && s.script != [] && s.script[0].cause == Request && Room(c, t, |log|) > 0
    ensures |Periods(c, s, Limit, log, t).log| == |log| + Bonus(s.script)
  {
    var t' := t + c.period;
    assert RunTo(s, t') == Resume(Simulate(s, c.period), t');
    RunToFiltered(s, Sim(WithoutRequests(s.script), s.tick), t');
  }

  lemma {:induction false} NoRequestsLeft(script: seq<Response>)
    ensures WithoutRequests(WithoutRequests(script)) == WithoutRequests(script)
    ensures forall r :: r in WithoutRequests(script) ==> r.cause != Request
  {
    if script != [] {
      NoRequestsLeft(script[1..]);
      if script[0].cause != Request {
        assert WithoutRequests(script)[1..] == WithoutRequests(script[1..]);
      } else {
        assert WithoutRequests(script) == [] + WithoutRequests(script[1..]) == WithoutRequests(script[1..]);
      }
    }
  }

  lemma NoBonus(script: seq<Response>, p: nat)
    requires p <= |script| && forall r :: r in script ==> r.cause != Request
    ensures Bonus(script[p..]) == 0
  {
    if script[p..] != [] { assert script[p..][0] in script; }
  }

  /** A program's requests leave the checkpoints as they are exactly when the first request that
      interrupts a period comes when at most one more checkpoint is due: `room` periods are allowed,
      `p` of them pass undisturbed, and the simulation would have completed `q` more. */
  lemma RequestsAreIgnoredIff(c: Config, s: Sim)
    requires s.tick <= c.when
    ensures var f := Sim(WithoutRequests(s.script), s.tick);
            var e := RunTo(s, c.when);
            var p := LeadingLimits(e.sim.script);
            var room := Room(c, c.when, 1);
            && p <= |e.sim.script|
            && var q := LeadingLimits(WithoutRequests(e.sim.script[p..]));
               (Checkpoints(c, s).log == Checkpoints(c, f).log <==> e.cause != Limit || p + 1 >= room || q <= 1)
  {
    var f := Sim(WithoutRequests(s.script), s.tick);
    var e, g := RunTo(s, c.when), RunTo(f, c.when);
    RunToFiltered(s, f, c.when);
    LimitsAreThere(e.sim.script);
    FromArrival(c, s);
    FromArrival(c, f);
    if e.cause == Limit {
      LoopComparison(c, e.sim, g.sim);
      SameLengthSameLog(c, s, f);
    }
  }

  lemma FromArrival(c: Config, s: Sim)
    requires s.tick <= c.when
    ensures var e := RunTo(s, c.when);
            Checkpoints(c, s).log == if e.cause == Limit then Periods(c, e.sim, Limit, [c.when], c.when).log else []
  {
  }

  lemma LoopComparison(c: Config, a: Sim, b: Sim)
    requires a.tick == c.when && b.tick == c.when && b.script == WithoutRequests(a.script)
    ensures var p, room := LeadingLimits(a.script), Room(c, c.when, 1);
            && p <= |a.script|
            && var q := LeadingLimits(WithoutRequests(a.script[p..]));
               (|Periods(c, a, Limit, [c.when], c.when).log| == |Periods(c, b, Limit, [c.when], c.when).log|
                <==> p + 1 >= room || q <= 1)
  {
    var p := LeadingLimits(a.script);
    LimitsAreThere(a.script);
    PeriodsCount(c, a, [c.when], c.when);
    PeriodsCount(c, b, [c.when], c.when);
    NoRequestsLeft(a.script);
    NoBonus(b.script, LeadingLimits(b.script));
    NotALimit(a.script);
  }

  /** What follows the leading limits is a request, another exit, or nothing. */
  lemma {:induction false} NotALimit(script: seq<Response>)
    ensures var p := LeadingLimits(script);
            && p <= |script|
            && (p < |script| && script[p].cause == Other ==> LeadingLimits(WithoutRequests(script[p..])) == 0)
            && (p < |script| ==> script[p].cause != Limit)
            && (p == |script| ==> LeadingLimits(WithoutRequests(script[p..])) == 0)
  {
    if LeadingLimits(script) > 0 {
      NotALimit(script[1..]);
      var p := LeadingLimits(script);
      assert script[1..][p - 1..] == script[p..];
    } else {
      assert script[0..] == script;
    }
  }

  lemma SameLengthSameLog(c: Config, s: Sim, f: Sim)
    requires s.tick <= c.when && f.tick <= c.when
    ensures Checkpoints(c, s).log == Checkpoints(c, f).log <==> |Checkpoints(c, s).log| == |Checkpoints(c, f).log|
  {
    CheckpointsOnSchedule(c, s);
    CheckpointsOnSchedule(c, f);
  }

  /** A request three ticks into the first period: the series ends there, two checkpoints short. */
  lemma RequestCutsTheSeries()
    ensures var c := Config(0, 10, 100, 4);
            var script := [Response(Limit, 0), Response(Request, 3), Response(Limit, 0), Response(Limit, 0), Response(Limit, 0)];
            && Checkpoints(c, Sim(script, 0)).log == [0, 10]
            && Checkpoints(c, Sim(WithoutRequests(script), 0)).log == [0, 10, 20, 30]
  {
    var c := Config(0, 10, 100, 4);
    var limit, request := Response(Limit, 0), Response(Request, 3);
    var s1 := [request, limit, limit, limit];
    var script := [limit] + s1;
    assert script[1..] == s1 && s1[1..] == [limit, limit, limit] && s1[1..][1..] == [limit, limit];
    assert RunTo(Sim(script, 0), 0) == Exited(Sim(s1, 0), Limit);
    var first := Simulate(Sim(s1, 0), 10);
    assert first == Exited(Sim([limit, limit, limit], 3), Request);
    assert Resume(first, 10) == Exited(Sim([limit, limit], 10), Limit);
    assert [0] + [10] == [0, 10];
    var rest := [limit, limit, limit];
    assert WithoutRequests(rest) == rest by {
      assert WithoutRequests([limit]) == [limit] by { assert [limit][1..] == []; }
      assert WithoutRequests([limit, limit]) == [limit] + [limit] by { assert [limit, limit][1..] == [limit]; }
      assert rest[1..] == [limit, limit];
    }
    assert WithoutRequests(s1) == [] + WithoutRequests(rest);
    assert WithoutRequests(script) == [limit] + rest;
    ThreePeriods(c, rest);
    assert ([limit] + rest)[1..] == rest;
    assert RunTo(Sim([limit] + rest, 0), 0) == Exited(Sim(rest, 0), Limit);
  }

  lemma ThreePeriods(c: Config, rest: seq<Response>)
    requires c == Config(0, 10, 100, 4) && rest == [Response(Limit, 0), Response(Limit, 0), Response(Limit, 0)]
    ensures Periods(c, Sim(rest, 0), Limit, [0], 0).log == [0, 10, 20, 30]
  {
    assert Periods(c, Sim(rest[1..][1..], 20), Limit, [0, 10, 20], 20).log == [0, 10, 20, 30] by {
      assert [0, 10, 20] + [30] == [0, 10, 20, 30];
      assert Simulate(Sim(rest[1..][1..], 20), 10) == Exited(Sim(rest[1..][1..][1..], 30), Limit);
    }
    assert [0, 10] + [20] == [0, 10, 20] && [0] + [10] == [0, 10];
    assert Simulate(Sim(rest[1..], 10), 10) == Exited(Sim(rest[1..][1..], 20), Limit);
    assert Simulate(Sim(rest, 0), 10) == Exited(Sim(rest[1..], 10), Limit);
  }

  // ---------- in numbers ----------

  /** How many periods fit: up to the last tick, and up to the number of checkpoints asked for. */
  lemma {:induction false} RoomIs(c: Config, t: int, n: nat)
    requires c.period > 0 && t <= c.maxTick && n <= c.maxCheckpoints
    ensures Room(c, t, n) == Min(c.maxCheckpoints - n, (c.maxTick - t) / c.period)
    decreases c.maxCheckpoints - n
  {
    var d := c.maxTick - t;
    DivMod(d, c.period);
    if d < c.period {
      DivUnique(d, c.period, 0, d);
    } else {
      DivAtLeast(d, c.period, 1);
      OneMore(d / c.period - 1, c.period);
      DivUnique(d - c.period, c.period, d / c.period - 1, d % c.period);
      if n < c.maxCheckpoints { RoomIs(c, t + c.period, n + 1); }
    }
  }

  lemma {:induction false} OnlyLimits(script: seq<Response>)
    requires forall r :: r in script ==> r.cause == Limit
    ensures LeadingLimits(script) == |script|
  {
    if script != [] {
      assert script[0] in script;
      OnlyLimits(script[1..]);
    }
  }

  /** A simulation that is never interrupted gives as many checkpoints as fit. */
  lemma UninterruptedCount(c: Config, s: Sim)
    requires s.tick <= c.when <= c.maxTick && c.period > 0 && c.maxCheckpoints >= 1
    requires s.script != [] && (forall r :: r in s.script ==> r.cause == Limit)
    requires |s.script| > Min(c.maxCheckpoints - 1, (c.maxTick - c.when) / c.period)
    ensures |Checkpoints(c, s).log| == 1 + Min(c.maxCheckpoints - 1, (c.maxTick - c.when) / c.period)
  {
    assert s.script[0] in s.script;
    var rest := Sim(s.script[1..], c.when);
    assert RunTo(s, c.when) == Exited(rest, Limit);
    OnlyLimits(s.script[1..]);
    PeriodsCount(c, rest, [c.when], c.when);
    RoomIs(c, c.when, 1);
  }

  lemma {:induction false} NoBadLimit(c: Config, s: Sim, cause: Cause, log: seq<int>, t: int)
    requires (cause == Limit ==> s.tick == t) && t <= c.maxTick
    ensures !Periods(c, s, cause, log, t).badLimit
    decreases |s.script|, if cause == Limit then 1 else 0
  {
    if |log| < c.maxCheckpoints && cause == Limit && t + c.period <= c.maxTick {
      var first := Simulate(s, c.period);
      var last := Resume(first, t + c.period);
      NoBadLimit(c, last.sim, first.cause, if last.cause == Limit then log + [last.sim.tick] else log, t + c.period);
    }
  }

  /** The simulator is asked to run backwards exactly if the first checkpoint was taken behind the last tick and more
      were wanted. */
  lemma BadLimitIff(c: Config, s: Sim)
    requires s.tick <= c.when
    ensures Checkpoints(c, s).badLimit <==> RunTo(s, c.when).cause == Limit && c.maxCheckpoints > 1 && c.maxTick < c.when
  {
    var e := RunTo(s, c.when);
    if c.when <= c.maxTick { NoBadLimit(c, e.sim, e.cause, if e.cause == Limit then [e.sim.tick] else [], c.when); }
  }
}
