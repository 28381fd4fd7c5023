/** The circuit breaker by the clock: when a provider is left alone after a failure, and when it is asked again. */
module CircuitBreaker {
  import opened Text
  import opened Registry

  /** Nothing but checks of `name`, and none that comes as late as `until`. */
  predicate Idle(steps: seq<Step>, name: string, until: int) {
    forall s :: s in steps && s.name == name ==> s.Check? && s.now < until
  }

  /** Whether `name` was asked: its success or failure is among the steps. */
  predicate WasAsked(steps: seq<Step>, name: string) {
    exists s :: s in steps && s.name == name && !s.Check?
  }

  /**
   * The circuits some time after a failure of `name` at `f` that reached the
   * threshold; `since` are the steps all requests took in between.
   */
  function Tripped(cfg: Config, before: Circuits, name: string, f: nat, since: seq<Step>): Circuits {
    Run(cfg, Apply(cfg, before, Failure(name, f)), since)
  }

  predicate ReachesThreshold(cfg: Config, before: Circuits, name: string) {
    (if name in before then before[name].failures else 0) + 1 >= cfg.threshold
  }

  // ------------------------------------------------------------ the open window

  ghost predicate WindowIs(m: Circuits, name: string, until: int) {
    name in m && m[name].openUntil == until
  }

  lemma {:induction false} WindowStays(cfg: Config, m: Circuits, steps: seq<Step>, name: string, until: int)
    requires WindowIs(m, name, until) && Idle(steps, name, until)
    ensures WindowIs(Run(cfg, m, steps), name, until) && Run(cfg, m, steps)[name] == m[name]
  {
    if steps != [] {
      var n := |steps| - 1;
      assert Idle(steps[..n], name, until);
      WindowStays(cfg, m, steps[..n], name, until);
      assert steps[n] in steps;
    }
  }

  lemma TrippedWindow(cfg: Config, before: Circuits, name: string, f: nat, since: seq<Step>)
    requires ReachesThreshold(cfg, before, name) && Idle(since, name, f + cfg.cooldown)
    ensures WindowIs(Tripped(cfg, before, name, f, since), name, f + cfg.cooldown)
  {
    WindowStays(cfg, Apply(cfg, before, Failure(name, f)), since, name, f + cfg.cooldown);
  }

  /** Other providers and other requests leave the window of `name` as it is. */
  lemma PassKeepsWindow<R>(cfg: Config, m: Circuits, other: string, a: Attempt<R>, name: string, until: int)
    requires WindowIs(m, name, until) && Idle(a.others, name, until) && other != name
    ensures WindowIs(Pass(cfg, m, other, a), name, until)
  {
    hide Run, Idle;
    WindowStays(cfg, Apply(cfg, m, Check(other, a.checkedAt)), a.others, name, until);
  }

  // ------------------------------------------------------------ what a call reports

  /** What is reported of a provider: that its circuit is open, or what it failed with. */
  predicate IsReason<R>(reason: string, name: string, a: Attempt<R>) {
    reason == name + ": circuit open" || (a.outcome.Err? && reason == name + ": " + a.outcome.error)
  }

  ghost predicate Reports<R>(names: seq<string>, env: seq<Attempt<R>>, errors: seq<string>, reasons: seq<string>,
                       r: Result<R, string>)
    requires |names| == |env|
  {
    && |reasons| == |names| && r == Err("All AI providers unavailable: " + Join(errors + reasons, "; "))
    && forall j :: 0 <= j < |names| ==> IsReason(reasons[j], names[j], env[j])
  }

  lemma ReportsCons<R>(names: seq<string>, env: seq<Attempt<R>>, errors: seq<string>, reason: string, reasons: seq<string>,
                       r: Result<R, string>)
    requires |names| == |env| > 0 && IsReason(reason, names[0], env[0])
    requires Reports(names[1..], env[1..], errors + [reason], reasons, r)
    ensures Reports(names, env, errors, [reason] + reasons, r)
  {
    hide IsReason;
    Assoc(errors, [reason], reasons);
    var all := [reason] + reasons;
    forall j | 0 <= j < |names| ensures IsReason(all[j], names[j], env[j]) {
      if j > 0 { assert IsReason(reasons[j - 1], names[1..][j - 1], env[1..][j - 1]); }
    }
  }

  lemma ReportsNothing<R>(errors: seq<string>)
    ensures Reports<R>([], [], errors, [], Err("All AI providers unavailable: " + Join(errors, "; ")))
  {
    assert errors + [] == errors;
  }

  /** A call that throws says of every provider why. */
  lemma {:induction false} FailedCallReports<R>(cfg: Config, names: seq<string>, env: seq<Attempt<R>>, m: Circuits,
                                                errors: seq<string>) returns (reasons: seq<string>)
    requires |names| == |env|
    ensures Call(cfg, names, env, m, errors).0.Err?
      ==> Reports(names, env, errors, reasons, Call(cfg, names, env, m, errors).0)
  {
    hide Apply, Run, Pass, Awaited, Reports;
    reasons := [];
    if names == [] {
      ReportsNothing<R>(errors);
    } else if PassedOver(m, names[0], env[0]) {
      var reason := Reason(m, names[0], env[0]);
      reasons := FailedCallReports(cfg, names[1..], env[1..], Pass(cfg, m, names[0], env[0]), errors + [reason]);
      if Call(cfg, names, env, m, errors).0.Err? {
        ReportsCons(names, env, errors, reason, reasons, Call(cfg, names, env, m, errors).0);
      }
      reasons := [reason] + reasons;
    }
  }

  // ------------------------------------------------------------ skipped while it is open

  /** Provider `i` has a name of its own, and no overlapping request asks it. */
  ghost predicate LeftAlone<R>(names: seq<string>, env: seq<Attempt<R>>, i: nat, until: int)
    requires i < |names| == |env|
  {
    && (forall j :: 0 <= j < |names| && j != i ==> names[j] != names[i])
    && (forall j :: 0 <= j < |names| ==> Idle(env[j].others, names[i], until))
  }

  lemma LeftAloneRest<R>(names: seq<string>, env: seq<Attempt<R>>, i: nat, until: int)
    requires i < |names| == |env| && LeftAlone(names, env, i, until) && i > 0
    ensures LeftAlone(names[1..], env[1..], i - 1, until) && names[0] != names[i]
  {
    hide Idle;
  }

  /** A provider that is not on the list is not asked. */
  lemma {:induction false} StrangersAreNotAsked<R>(cfg: Config, names: seq<string>, env: seq<Attempt<R>>, m: Circuits,
                                                   name: string, until: int)
    requires |names| == |env| && name !in names && forall a :: a in env ==> Idle(a.others, name, until)
    ensures Idle(Trace(names, env, cfg, m), name, until)
  {
    hide Apply, Run, Pass, IsOpen;
    if names != [] {
      assert env[0] in env;
      StrangersAreNotAsked(cfg, names[1..], env[1..], Pass(cfg, m, names[0], env[0]), name, until);
    }
  }

  /** The attempts differ at most in what provider `i` would do when asked. */
  ghost predicate SameBut<R>(a: seq<Attempt<R>>, b: seq<Attempt<R>>, i: nat) {
    |a| == |b| && i < |a| && a[i].checkedAt == b[i].checkedAt && forall j :: 0 <= j < |a| && j != i ==> a[j] == b[j]
  }

  lemma SameButRest<R>(a: seq<Attempt<R>>, b: seq<Attempt<R>>, i: nat)
    requires SameBut(a, b, i)
    ensures |a| == |b| && a[i].checkedAt == b[i].checkedAt
    ensures if i == 0 then a[1..] == b[1..] else a[0] == b[0] && SameBut(a[1..], b[1..], i - 1)
  {
  }

  lemma {:induction false} WindowIsSkipped<R>(cfg: Config, names: seq<string>, env: seq<Attempt<R>>, other: seq<Attempt<R>>,
                                              m: Circuits, errors: seq<string>, i: nat, until: int)
    requires i < |names| == |env| && LeftAlone(names, env, i, until) && SameBut(env, other, i)
    requires WindowIs(m, names[i], until) && env[i].checkedAt < until
    ensures Call(cfg, names, other, m, errors) == Call(cfg, names, env, m, errors)
    ensures Idle(Trace(names, env, cfg, m), names[i], until)
  {
    hide Apply, Run, Idle, LeftAlone, SameBut;
    SameButRest(env, other, i);
    if i == 0 {
      FirstIsSkipped(cfg, names, env, m, errors, until);
      FirstIsSkipped(cfg, names, other, m, errors, until);
      RestIsNotAsked(cfg, names, env, m, until);
    } else {
      LeftAloneRest(names, env, i, until);
      EarlierIsOther(cfg, names, env, m, i, until);
      if PassedOver(m, names[0], env[0]) {
        var m' := Pass(cfg, m, names[0], env[0]);
        hide Pass;
        WindowIsSkipped(cfg, names[1..], env[1..], other[1..], m', errors + [Reason(m, names[0], env[0])], i - 1, until);
      }
    }
  }

  lemma FirstIsSkipped<R>(cfg: Config, names: seq<string>, env: seq<Attempt<R>>, m: Circuits, errors: seq<string>,
                          until: int)
    requires 0 < |names| == |env| && WindowIs(m, names[0], until) && env[0].checkedAt < until
    ensures IsOpen(m, names[0], env[0].checkedAt)
    ensures Call(cfg, names, env, m, errors) == Call(cfg, names[1..], env[1..], m, errors + [names[0] + ": circuit open"])
  {
  }

  /** The steps of a call whose first provider is skipped. */
  lemma RestIsNotAsked<R>(cfg: Config, names: seq<string>, env: seq<Attempt<R>>, m: Circuits, until: int)
    requires 0 < |names| == |env| && LeftAlone(names, env, 0, until) && IsOpen(m, names[0], env[0].checkedAt)
    requires env[0].checkedAt < until
    ensures Idle(Trace(names, env, cfg, m), names[0], until)
  {
    hide Apply, Run, Pass, IsOpen;
    StrangersAreNotAsked(cfg, names[1..], env[1..], Pass(cfg, m, names[0], env[0]), names[0], until);
  }

  /** The part of the steps that comes before provider `i`, and what it leaves of its window. */
  lemma EarlierIsOther<R>(cfg: Config, names: seq<string>, env: seq<Attempt<R>>, m: Circuits, i: nat, until: int)
    requires i < |names| == |env| && LeftAlone(names, env, i, until) && i > 0 && WindowIs(m, names[i], until)
    ensures WindowIs(Pass(cfg, m, names[0], env[0]), names[i], until)
    ensures PassedOver(m, names[0], env[0]) && Idle(Trace(names[1..], env[1..], cfg, Pass(cfg, m, names[0], env[0])), names[i], until)
      ==> Idle(Trace(names, env, cfg, m), names[i], until)
    ensures !PassedOver(m, names[0], env[0]) ==> Idle(Trace(names, env, cfg, m), names[i], until)
  {
    hide Apply, Run, IsOpen;
    assert names[0] != names[i] && Idle(env[0].others, names[i], until);
    PassKeepsWindow(cfg, m, names[0], env[0], names[i], until);
    hide Pass, WindowIs;
  }

  /**
   * A provider whose failure at `f` reached the threshold is left alone by every
   * call that would check it before `f + cooldown`: it is not asked, its answer
   * plays no part, and if the call throws, its reason is the open circuit.
   */
  lemma OpenIsSkipped<R>(cfg: Config, before: Circuits, f: nat, since: seq<Step>, names: seq<string>, env: seq<Attempt<R>>,
                         other: seq<Attempt<R>>, i: nat)
    requires i < |names| == |env| && LeftAlone(names, env, i, f + cfg.cooldown)
    requires ReachesThreshold(cfg, before, names[i]) && Idle(since, names[i], f + cfg.cooldown)
    requires env[i].checkedAt < f + cfg.cooldown && SameBut(env, other, i)
    ensures var m := Tripped(cfg, before, names[i], f, since);
      && !WasAsked(Trace(names, env, cfg, m), names[i])
      && Call(cfg, names, other, m, []) == Call(cfg, names, env, m, [])
  {
    hide Call, Trace, LeftAlone, SameBut, Tripped;
    TrippedWindow(cfg, before, names[i], f, since);
    WindowIsSkipped(cfg, names, env, other, Tripped(cfg, before, names[i], f, since), [], i, f + cfg.cooldown);
  }

  /** If the call throws, the reason it gives for that provider is the open circuit, whatever the provider would have said. */
  lemma OpenIsTheReason<R>(cfg: Config, before: Circuits, f: nat, since: seq<Step>, names: seq<string>, env: seq<Attempt<R>>,
                           i: nat) returns (reasons: seq<string>)
    requires i < |names| == |env| && LeftAlone(names, env, i, f + cfg.cooldown)
    requires ReachesThreshold(cfg, before, names[i]) && Idle(since, names[i], f + cfg.cooldown)
    requires env[i].checkedAt < f + cfg.cooldown
    ensures var r := Call(cfg, names, env, Tripped(cfg, before, names[i], f, since), []).0;
      r.Err? ==> Reports(names, env, [], reasons, r) && reasons[i] == names[i] + ": circuit open"
  {
    hide Call, Trace, Idle, LeftAlone, Tripped, IsReason;
    var other := env[i := env[i].(outcome := Err("circuit open"))];
    var m := Tripped(cfg, before, names[i], f, since);
    OpenIsSkipped(cfg, before, f, since, names, env, other, i);
    reasons := FailedCallReports(cfg, names, other, m, []);
    if Call(cfg, names, env, m, []).0.Err? {
      forall j | 0 <= j < |names| ensures IsReason(reasons[j], names[j], env[j]) {
        assert IsReason(reasons[j], names[j], other[j]);
        if j == i { OnlyOpen(reasons[i], names[i], other[i], env[i]); }
      }
      OnlyOpen(reasons[i], names[i], other[i], env[i]);
    }
  }

  lemma OnlyOpen<R>(reason: string, name: string, a: Attempt<R>, b: Attempt<R>)
    requires IsReason(reason, name, a) && a.outcome == Err("circuit open")
    ensures reason == name + ": circuit open" && IsReason(reason, name, b)
  {
    assert name + ": " + "circuit open" == name + ": circuit open";
  }

  // ------------------------------------------------------------ asked when it is not

  /** The window of `name`, if it ever opened, is over at `t`. */
  ghost predicate WindowEnded(m: Circuits, name: string, t: nat) {
    name in m ==> m[name].openUntil <= t
  }

  lemma {:induction false} EndedStays(cfg: Config, m: Circuits, steps: seq<Step>, name: string, t: nat)
    requires WindowEnded(m, name, t) && Spares(steps, name)
    ensures WindowEnded(Run(cfg, m, steps), name, t)
  {
    if steps != [] {
      var n := |steps| - 1;
      assert Spares(steps[..n], name);
      EndedStays(cfg, m, steps[..n], name, t);
      assert steps[n] in steps;
    }
  }

  lemma PassKeepsEnded<R>(cfg: Config, m: Circuits, other: string, a: Attempt<R>, name: string, t: nat)
    requires WindowEnded(m, name, t) && Spares(a.others, name) && other != name
    ensures WindowEnded(Pass(cfg, m, other, a), name, t)
  {
    hide Run, Spares;
    EndedStays(cfg, Apply(cfg, m, Check(other, a.checkedAt)), a.others, name, t);
  }

  /** Every earlier provider has another name and fails if asked, and meanwhile nobody records a failure of provider `i`. */
  ghost predicate ReachedAfterFailures<R>(names: seq<string>, env: seq<Attempt<R>>, i: nat)
    requires i < |names| == |env|
  {
    forall j :: 0 <= j < i ==> names[j] != names[i] && env[j].outcome.Err? && Spares(env[j].others, names[i])
  }

  /** The step in which provider `i` answers or fails. */
  function Answer<R>(name: string, a: Attempt<R>): Step {
    if a.outcome.Ok? then Success(name) else Failure(name, a.failedAt)
  }

  /** The call asks provider `i`: its answer is among the steps, and is the result or, with all others failing, a reason. */
  ghost predicate Asks<R>(cfg: Config, names: seq<string>, env: seq<Attempt<R>>, m: Circuits, errors: seq<string>, i: nat,
                          reasons: seq<string>)
    requires i < |names| == |env|
  {
    var r := Call(cfg, names, env, m, errors).0;
    && Answer(names[i], env[i]) in Trace(names, env, cfg, m)
    && (env[i].outcome.Ok? ==> r == Ok(env[i].outcome.value))
    && (r.Err? ==> Reports(names, env, errors, reasons, r) && reasons[i] == names[i] + ": " + env[i].outcome.error)
  }

  lemma {:induction false} EndedIsAsked<R>(cfg: Config, names: seq<string>, env: seq<Attempt<R>>, m: Circuits,
                                           errors: seq<string>, i: nat) returns (reasons: seq<string>)
    requires i < |names| == |env| && ReachedAfterFailures(names, env, i)
    requires WindowEnded(m, names[i], env[i].checkedAt)
    ensures Asks(cfg, names, env, m, errors, i, reasons)
  {
    hide Apply, Run, Reports, Spares;
    if i == 0 {
      FirstIsAsked(cfg, names, env, m, errors);
      hide Pass, WindowEnded;
      var reason := names[0] + ": " + if env[0].outcome.Err? then env[0].outcome.error else "";
      reasons := [];
      if env[0].outcome.Err? {
        reasons := FailedCallReports(cfg, names[1..], env[1..], Pass(cfg, m, names[0], env[0]), errors + [reason]);
        if Call(cfg, names, env, m, errors).0.Err? {
          ReportsCons(names, env, errors, reason, reasons, Call(cfg, names, env, m, errors).0);
        }
        reasons := [reason] + reasons;
      }
    } else {
      PassKeepsEnded(cfg, m, names[0], env[0], names[i], env[i].checkedAt);
      var m' := Pass(cfg, m, names[0], env[0]);
      var reason := Reason(m, names[0], env[0]);
      hide Pass, WindowEnded;
      reasons := EndedIsAsked(cfg, names[1..], env[1..], m', errors + [reason], i - 1);
      if Call(cfg, names, env, m, errors).0.Err? {
        ReportsCons(names, env, errors, reason, reasons, Call(cfg, names, env, m, errors).0);
      }
      reasons := [reason] + reasons;
    }
  }

  lemma FirstIsAsked<R>(cfg: Config, names: seq<string>, env: seq<Attempt<R>>, m: Circuits, errors: seq<string>)
    requires 0 < |names| == |env| && WindowEnded(m, names[0], env[0].checkedAt)
    ensures Answer(names[0], env[0]) in Trace(names, env, cfg, m)
    ensures env[0].outcome.Ok? ==> Call(cfg, names, env, m, errors).0 == Ok(env[0].outcome.value)
    ensures env[0].outcome.Err? ==>
      PassedOver(m, names[0], env[0]) &&
      Call(cfg, names, env, m, errors) == Call(cfg, names[1..], env[1..], Pass(cfg, m, names[0], env[0]),
                                               errors + [names[0] + ": " + env[0].outcome.error])
  {
    hide Apply, Run;
  }

  /** A call that checks the provider when the cooldown after that failure is over asks it. */
  lemma CooledIsAsked<R>(cfg: Config, before: Circuits, f: nat, since: seq<Step>, names: seq<string>, env: seq<Attempt<R>>,
                         i: nat) returns (reasons: seq<string>)
    requires i < |names| == |env| && ReachedAfterFailures(names, env, i)
    requires ReachesThreshold(cfg, before, names[i]) && Spares(since, names[i])
    requires env[i].checkedAt >= f + cfg.cooldown
    ensures Asks(cfg, names, env, Tripped(cfg, before, names[i], f, since), [], i, reasons)
  {
    hide Asks, Run, ReachedAfterFailures, Spares;
    EndedStays(cfg, Apply(cfg, before, Failure(names[i], f)), since, names[i], env[i].checkedAt);
    reasons := EndedIsAsked(cfg, names, env, Tripped(cfg, before, names[i], f, since), [], i);
  }

  /** After a success, and until it fails again, a provider is asked whenever a call reaches it. */
  lemma SuccessIsAsked<R>(cfg: Config, before: Circuits, since: seq<Step>, names: seq<string>, env: seq<Attempt<R>>,
                          i: nat) returns (reasons: seq<string>)
    requires i < |names| == |env| && ReachedAfterFailures(names, env, i) && Spares(since, names[i])
    ensures Asks(cfg, names, env, Run(cfg, Apply(cfg, before, Success(names[i])), since), [], i, reasons)
  {
    hide Asks, Run, ReachedAfterFailures, Spares;
    EndedStays(cfg, Apply(cfg, before, Success(names[i])), since, names[i], env[i].checkedAt);
    reasons := EndedIsAsked(cfg, names, env, Run(cfg, Apply(cfg, before, Success(names[i])), since), [], i);
  }

  /** And so is a provider that has never failed. */
  lemma NewIsAsked<R>(cfg: Config, since: seq<Step>, names: seq<string>, env: seq<Attempt<R>>, i: nat)
    returns (reasons: seq<string>)
    requires i < |names| == |env| && ReachedAfterFailures(names, env, i) && Spares(since, names[i])
    ensures Asks(cfg, names, env, Run(cfg, map[], since), [], i, reasons)
  {
    hide Asks, Run, ReachedAfterFailures, Spares;
    EndedStays(cfg, map[], since, names[i], env[i].checkedAt);
    reasons := EndedIsAsked(cfg, names, env, Run(cfg, map[], since), [], i);
  }

  // ------------------------------------------------------------ over runs of calls

  /** The steps of call `x` of a run. */
  function StepsOf<R>(cfg: Config, names: seq<string>, calls: seq<seq<Attempt<R>>>, x: nat): seq<Step>
    requires x < |calls| && forall c :: c in calls ==> |c| == |names|
  {
    Trace(names, calls[x], cfg, RunCalls(cfg, names, calls[..x]))
  }

  lemma NextCall<R>(cfg: Config, names: seq<string>, calls: seq<seq<Attempt<R>>>, x: nat)
    requires x < |calls| && forall c :: c in calls ==> |c| == |names|
    ensures var m := RunCalls(cfg, names, calls[..x]);
      RunCalls(cfg, names, calls[..x + 1]) == Call(cfg, names, calls[x], m, []).1 == Run(cfg, m, StepsOf(cfg, names, calls, x))
  {
    hide Call, Trace, Run;
    assert calls[..x + 1][..x] == calls[..x] && calls[..x + 1][x] == calls[x];
    CallIsItsSteps(cfg, names, calls[x], RunCalls(cfg, names, calls[..x]), []);
  }

  lemma {:induction false} KnownStays(cfg: Config, m: Circuits, steps: seq<Step>, name: string)
    ensures name in m || WasAsked(steps, name) ==> name in Run(cfg, m, steps)
  {
    if steps != [] && (name in m || WasAsked(steps, name)) {
      var n := |steps| - 1;
      KnownStays(cfg, m, steps[..n], name);
      if name !in m && !WasAsked(steps[..n], name) {
        var s :| s in steps && s.name == name && !s.Check?;
        assert s !in steps[..n];
        assert s == steps[n];
      }
    }
  }

  /** Whoever was asked once is known from then on. */
  lemma {:induction false} AskedIsKnown<R>(cfg: Config, names: seq<string>, calls: seq<seq<Attempt<R>>>, x: nat, k: nat,
                                           name: string)
    requires x < k <= |calls| && (forall c :: c in calls ==> |c| == |names|) && WasAsked(StepsOf(cfg, names, calls, x), name)
    ensures name in RunCalls(cfg, names, calls[..k])
    decreases k
  {
    hide RunCalls, StepsOf, WasAsked;
    NextCall(cfg, names, calls, k - 1);
    KnownStays(cfg, RunCalls(cfg, names, calls[..k - 1]), StepsOf(cfg, names, calls, k - 1), name);
    if x < k - 1 { AskedIsKnown(cfg, names, calls, x, k - 1, name); }
  }

  /** A call of its own in which a known provider is asked at `f` and fails opens its window. */
  lemma {:induction false} FailureTrips<R>(cfg: Config, names: seq<string>, env: seq<Attempt<R>>, m: Circuits, name: string,
                                           f: nat)
    requires |names| == |env| && Distinct(names) && Quiet(env) && cfg.threshold >= 1 && AllSettled(cfg, m)
    requires (cfg.threshold == 1 || name in m) && Failure(name, f) in Trace(names, env, cfg, m)
    ensures WindowIs(Run(cfg, m, Trace(names, env, cfg, m)), name, f + cfg.cooldown)
  {
    hide Run, Apply, Pass, Settled, IsOpen;
    assert env[0] in env;
    var m' := Pass(cfg, m, names[0], env[0]);
    var rest := Trace(names[1..], env[1..], cfg, m');
    CallIsItsSteps(cfg, names, env, m, []);
    if PassedOver(m, names[0], env[0]) {
      CallIsItsSteps(cfg, names[1..], env[1..], m', [] + [Reason(m, names[0], env[0])]);
      OnePassSettles(cfg, m, names[0], env[0], name);
      if names[0] == name {
        StrangersAreNotAsked(cfg, names[1..], env[1..], m', name, f + cfg.cooldown);
        assert Failure(name, f) !in rest;
        FirstFailureTrips(cfg, m, name, env[0]);
        WindowStays(cfg, m', rest, name, f + cfg.cooldown);
      } else {
        FailureTrips(cfg, names[1..], env[1..], m', name, f);
      }
    }
  }

  lemma OnePassSettles<R>(cfg: Config, m: Circuits, first: string, a: Attempt<R>, name: string)
    requires cfg.threshold >= 1 && AllSettled(cfg, m) && a.others == []
    ensures var m' := Pass(cfg, m, first, a);
      (PassedOver(m, first, a) ==> AllSettled(cfg, m')) && (name in m ==> name in m')
  {
  }

  lemma FirstFailureTrips<R>(cfg: Config, m: Circuits, name: string, a: Attempt<R>)
    requires cfg.threshold >= 1 && AllSettled(cfg, m) && (cfg.threshold == 1 || name in m)
    requires a.others == [] && a.outcome.Err? && !IsOpen(m, name, a.checkedAt)
    ensures WindowIs(Pass(cfg, m, name, a), name, a.failedAt + cfg.cooldown)
  {
    FailureOpensExactly(cfg, m, name, a);
  }

  lemma {:induction false} WindowOverCalls<R>(cfg: Config, names: seq<string>, calls: seq<seq<Attempt<R>>>, i: nat, k: nat,
                                              j: nat, until: int)
    requires (forall c :: c in calls ==> |c| == |names| && Quiet(c)) && Distinct(names) && i < |names|
    requires k <= j <= |calls| && forall x :: k <= x < j ==> calls[x][i].checkedAt < until
    requires WindowIs(RunCalls(cfg, names, calls[..k]), names[i], until)
    ensures WindowIs(RunCalls(cfg, names, calls[..j]), names[i], until)
    decreases j
  {
    hide RunCalls, Run, Trace, WindowIs;
    if k < j {
      WindowOverCalls(cfg, names, calls, i, k, j - 1, until);
      var m := RunCalls(cfg, names, calls[..j - 1]);
      QuietIsLeftAlone(names, calls[j - 1], i, until);
      SameButSelf(calls[j - 1], i);
      WindowIsSkipped(cfg, names, calls[j - 1], calls[j - 1], m, [], i, until);
      NextCall(cfg, names, calls, j - 1);
      WindowStays(cfg, m, StepsOf(cfg, names, calls, j - 1), names[i], until);
    }
  }

  lemma SameButSelf<R>(a: seq<Attempt<R>>, i: nat)
    requires i < |a|
    ensures SameBut(a, a, i)
  {
  }

  lemma QuietIsLeftAlone<R>(names: seq<string>, env: seq<Attempt<R>>, i: nat, until: int)
    requires i < |names| == |env| && Distinct(names) && Quiet(env)
    ensures LeftAlone(names, env, i, until)
    ensures (forall q :: 0 <= q < i ==> env[q].outcome.Err?) ==> ReachedAfterFailures(names, env, i)
  {
    forall q | 0 <= q < |names| ensures env[q].others == [] {
      assert env[q] in env;
    }
  }

  lemma AskedAfterWindow<R>(cfg: Config, names: seq<string>, env: seq<Attempt<R>>, m: Circuits, i: nat, until: int)
    requires i < |names| == |env| && Distinct(names) && Quiet(env) && WindowIs(m, names[i], until)
    requires forall q :: 0 <= q < i ==> env[q].outcome.Err?
    ensures WasAsked(Trace(names, env, cfg, m), names[i]) <==> env[i].checkedAt >= until
  {
    hide Trace, Call, Reports, LeftAlone, ReachedAfterFailures, SameBut;
    QuietIsLeftAlone(names, env, i, until);
    if env[i].checkedAt < until {
      SameButSelf(env, i);
      WindowIsSkipped(cfg, names, env, env, m, [], i, until);
    } else {
      var reasons := EndedIsAsked(cfg, names, env, m, [], i);
      assert Answer(names[i], env[i]) in Trace(names, env, cfg, m);
    }
  }

  lemma StepsAre<R>(cfg: Config, names: seq<string>, calls: seq<seq<Attempt<R>>>, x: nat)
    requires x < |calls| && forall c :: c in calls ==> |c| == |names|
    ensures StepsOf(cfg, names, calls, x) == Trace(names, calls[x], cfg, RunCalls(cfg, names, calls[..x]))
  {
  }

  lemma TrippedByCall<R>(cfg: Config, names: seq<string>, calls: seq<seq<Attempt<R>>>, i: nat, k: nat, f: nat)
    requires (forall c :: c in calls ==> |c| == |names| && Quiet(c)) && Distinct(names) && cfg.threshold >= 1
    requires i < |names| && k < |calls| && Failure(names[i], f) in StepsOf(cfg, names, calls, k)
    requires cfg.threshold == 1 || exists x: nat :: x < k && WasAsked(StepsOf(cfg, names, calls, x), names[i])
    ensures WindowIs(RunCalls(cfg, names, calls[..k + 1]), names[i], f + cfg.cooldown)
  {
    hide RunCalls, WindowIs, WasAsked, StepsOf, Quiet, Distinct, AllSettled;
    if cfg.threshold != 1 {
      var x: nat :| x < k && WasAsked(StepsOf(cfg, names, calls, x), names[i]);
      AskedIsKnown(cfg, names, calls, x, k, names[i]);
    }
    StatesBetweenCalls(cfg, names, calls[..k]);
    StepsAre(cfg, names, calls, k);
    assert calls[k] in calls;
    FailureTrips(cfg, names, calls[k], RunCalls(cfg, names, calls[..k]), names[i], f);
    NextCall(cfg, names, calls, k);
  }

  /**
   * Over runs of calls that do not overlap: call `k` asked provider `i` at a time
   * when it had been asked before (or the threshold is one), and it failed at `f`;
   * the calls since then came within the cooldown. Then a call asks it again
   * exactly when it comes at `f + cooldown` or later, if no earlier provider answers.
   */
  lemma CooldownOverCalls<R>(cfg: Config, names: seq<string>, calls: seq<seq<Attempt<R>>>, i: nat, k: nat, j: nat, f: nat)
    requires (forall c :: c in calls ==> |c| == |names| && Quiet(c)) && Distinct(names) && cfg.threshold >= 1
    requires i < |names| && k < j < |calls|
    requires Failure(names[i], f) in StepsOf(cfg, names, calls, k)
    requires cfg.threshold == 1 || exists x: nat :: x < k && WasAsked(StepsOf(cfg, names, calls, x), names[i])
    requires forall x :: k < x < j ==> calls[x][i].checkedAt < f + cfg.cooldown
    requires forall q :: 0 <= q < i ==> calls[j][q].outcome.Err?
    ensures WasAsked(StepsOf(cfg, names, calls, j), names[i]) <==> calls[j][i].checkedAt >= f + cfg.cooldown
  {
    hide RunCalls, WindowIs, WasAsked, StepsOf, Quiet, Distinct;
    TrippedByCall(cfg, names, calls, i, k, f);
    WindowOverCalls(cfg, names, calls, i, k + 1, j, f + cfg.cooldown);
    assert calls[j] in calls;
    AskedAfterWindow(cfg, names, calls[j], RunCalls(cfg, names, calls[..j]), i, f + cfg.cooldown);
    StepsAre(cfg, names, calls, j);
  }
}
