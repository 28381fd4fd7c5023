/** Provider failover with a circuit breaker per provider. */
module Registry {
  import opened Text

  datatype Circuit = Circuit(failures: int, openUntil: int)

  type Circuits = map<string, Circuit>

  datatype Config = Config(threshold: int, cooldown: int)

  // ------------------------------------------------------------- atomic steps

  /** The steps that run without giving way to another request. */
  datatype Step = Check(name: string, now: nat) | Success(name: string) | Failure(name: string, now: nat)

  predicate IsOpen(m: Circuits, name: string, now: nat) {
    name in m && now < m[name].openUntil
  }

  function Failed(cfg: Config, c: Circuit, now: nat): Circuit {
    Circuit(c.failures + 1, if c.failures + 1 >= cfg.threshold then now + cfg.cooldown else c.openUntil)
  }

  function Apply(cfg: Config, m: Circuits, step: Step): Circuits {
    match step
    case Check(name, now) =>
      if name !in m || IsOpen(m, name, now) then m else m[name := Circuit(cfg.threshold - 1, 0)]
    case Success(name) => m[name := Circuit(0, 0)]
    case Failure(name, now) =>
      m[name := Failed(cfg, if name in m then m[name] else Circuit(0, 0), now)]
  }

  /** The circuits after steps of any number of requests, in any order. */
  function Run(cfg: Config, m: Circuits, steps: seq<Step>): Circuits {
    if steps == [] then m else Apply(cfg, Run(cfg, m, steps[..|steps| - 1]), steps[|steps| - 1])
  }

  lemma RunSnoc(cfg: Config, m: Circuits, steps: seq<Step>, step: Step)
    ensures Run(cfg, m, steps + [step]) == Apply(cfg, Run(cfg, m, steps), step)
  {
    hide Apply;
    assert (steps + [step])[..|steps|] == steps;
  }

  lemma {:induction false} RunAppend(cfg: Config, m: Circuits, a: seq<Step>, b: seq<Step>)
    ensures Run(cfg, m, a + b) == Run(cfg, Run(cfg, m, a), b)
  {
    hide Apply;
    if b == [] {
      assert a + b == a;
    } else {
      RunAppend(cfg, m, a, b[..|b| - 1]);
      assert (a + b)[..|a + b| - 1] == a + b[..|b| - 1];
    }
  }

  // ---------------------------------------------------------------- one call

  /**
   * What the environment does to one provider during one call: the clock when its
   * circuit is checked, the steps of other requests while the provider is awaited,
   * what it answers, and the clock when a failure is recorded.
   */
  datatype Attempt<R> = Attempt(checkedAt: nat, others: seq<Step>, outcome: Result<R, string>, failedAt: nat)

  /** No other request takes a step while this one waits. */
  ghost predicate Quiet<R>(env: seq<Attempt<R>>) {
    forall a :: a in env ==> a.others == []
  }

  /** Provider `name` gives no answer: its circuit is open, or it is asked and fails. */
  predicate PassedOver<R>(m: Circuits, name: string, a: Attempt<R>) {
    IsOpen(m, name, a.checkedAt) || a.outcome.Err?
  }

  /** The circuits when an asked provider has answered. */
  function Awaited<R>(cfg: Config, m: Circuits, name: string, a: Attempt<R>): Circuits {
    Run(cfg, Apply(cfg, m, Check(name, a.checkedAt)), a.others)
  }

  /** The circuits once `name` has been passed over. */
  function Pass<R>(cfg: Config, m: Circuits, name: string, a: Attempt<R>): Circuits {
    if IsOpen(m, name, a.checkedAt) then Apply(cfg, m, Check(name, a.checkedAt))
    else Apply(cfg, Awaited(cfg, m, name, a), Failure(name, a.failedAt))
  }

  function Reason<R>(m: Circuits, name: string, a: Attempt<R>): string
    requires PassedOver(m, name, a)
  {
    if IsOpen(m, name, a.checkedAt) then name + ": circuit open" else name + ": " + a.outcome.error
  }

  function Call<R>(cfg: Config, names: seq<string>, env: seq<Attempt<R>>, m: Circuits, errors: seq<string>)
    : (Result<R, string>, Circuits)
    requires |names| == |env|
  {
    if names == [] then
      (Err("All AI providers unavailable: " + Join(errors, "; ")), m)
    else if PassedOver(m, names[0], env[0]) then
      Call(cfg, names[1..], env[1..], Pass(cfg, m, names[0], env[0]), errors + [Reason(m, names[0], env[0])])
    else
      (Ok(env[0].outcome.value), Apply(cfg, Awaited(cfg, m, names[0], env[0]), Success(names[0])))
  }

  /** The registry: a fixed list of providers, by name, and a mutable table of circuits. */
  class AiProviderRegistry {
    const providers: seq<string>
    const cfg: Config
    var circuits: Circuits

    constructor (providers: seq<string>, cfg: Config)
      ensures this.providers == providers && this.cfg == cfg && circuits == map[]
    {
      this.providers := providers;
      this.cfg := cfg;
      circuits := map[];
    }

    /** A registry needs at least one provider; the default limits are 3 failures and 30 seconds. */
    static method Create(providers: seq<string>, failureThreshold: Option<int>, cooldownMs: Option<int>)
      returns (r: Result<AiProviderRegistry, string>)
      ensures r.Ok? <==> providers != []
      ensures r.Ok? ==> fresh(r.value) && r.value.providers == providers && r.value.circuits == map[]
      ensures r.Ok? ==> r.value.cfg.threshold == (if failureThreshold.Some? then failureThreshold.value else 3)
      ensures r.Ok? ==> r.value.cfg.cooldown == (if cooldownMs.Some? then cooldownMs.value else 30000)
    {
      if providers == [] { return Err("AiProviderRegistry requires at least one provider"); }
      var cfg := Config(if failureThreshold.Some? then failureThreshold.value else 3,
                        if cooldownMs.Some? then cooldownMs.value else 30000);
      var registry := new AiProviderRegistry(providers, cfg);
      return Ok(registry);
    }

    method CheckOpen(name: string, now: nat) returns (open: bool)
      modifies this`circuits
      ensures open == IsOpen(old(circuits), name, now)
      ensures circuits == Apply(cfg, old(circuits), Check(name, now))
    {
      if name !in circuits { return false; }
      if now < circuits[name].openUntil { return true; }
      circuits := circuits[name := Circuit(cfg.threshold - 1, 0)];
      return false;
    }

    method RecordSuccess(name: string)
      modifies this`circuits
      ensures circuits == Apply(cfg, old(circuits), Success(name))
    {
      circuits := circuits[name := Circuit(0, 0)];
    }

    method RecordFailure(name: string, now: nat)
      modifies this`circuits
      ensures circuits == Apply(cfg, old(circuits), Failure(name, now))
    {
      var state := if name in circuits then circuits[name] else Circuit(0, 0);
      state := state.(failures := state.failures + 1);
      if state.failures >= cfg.threshold {
        state := state.(openUntil := now + cfg.cooldown);
      }
      circuits := circuits[name := state];
    }

    /** Other requests use the same table. */
    method Meanwhile(steps: seq<Step>)
      modifies this`circuits
      ensures circuits == Run(cfg, old(circuits), steps)
    {
      hide Apply;
      for i := 0 to |steps|
        invariant circuits == Run(cfg, old(circuits), steps[..i])
      {
        assert steps[..i + 1][..i] == steps[..i];
        match steps[i] {
          case Check(name, now) => var _ := CheckOpen(name, now);
          case Success(name) => RecordSuccess(name);
          case Failure(name, now) => RecordFailure(name, now);
        }
      }
      assert steps[..|steps|] == steps;
    }

    /** One call; while it awaits a provider, other requests go on. */
    method WithFailover<R>(env: seq<Attempt<R>>) returns (r: Result<R, string>)
      requires |env| == |providers|
      modifies this`circuits
      ensures (r, circuits) == Call(cfg, providers, env, old(circuits), [])
    {
      hide Apply, Run;
      var errors: seq<string> := [];
      for i := 0 to |providers|
        invariant Call(cfg, providers, env, old(circuits), [])
               == Call(cfg, providers[i..], env[i..], circuits, errors)
      {
        var name := providers[i];
        assert providers[i..][1..] == providers[i + 1..] && env[i..][1..] == env[i + 1..];
        ghost var m := circuits;
        var open := CheckOpen(name, env[i].checkedAt);
        if open {
          errors := errors + [name + ": circuit open"];
          continue;
        }
        Meanwhile(env[i].others);
        match env[i].outcome {
          case Ok(result) =>
            RecordSuccess(name);
            return Ok(result);
          case Err(error) =>
            RecordFailure(name, env[i].failedAt);
            errors := errors + [name + ": " + error];
        }
      }
      return Err("All AI providers unavailable: " + Join(errors, "; "));
    }
  }

  // --------------------------------------------------------- who answers a call

  /** The circuits found when the loop reaches provider `i`, all earlier ones passed over. */
  function Reached<R>(cfg: Config, names: seq<string>, env: seq<Attempt<R>>, m: Circuits, i: nat): Circuits
    requires i <= |names| == |env|
  {
    if i == 0 then m else Reached(cfg, names[1..], env[1..], Pass(cfg, m, names[0], env[0]), i - 1)
  }

  /** Provider `k` answers: everyone before it was open or failed in this call, and it was neither. */
  predicate Answers<R>(cfg: Config, names: seq<string>, env: seq<Attempt<R>>, m: Circuits, k: nat)
    requires |names| == |env|
  {
    k < |names| && !PassedOver(Reached(cfg, names, env, m, k), names[k], env[k]) &&
    forall i :: 0 <= i < k ==> PassedOver(Reached(cfg, names, env, m, i), names[i], env[i])
  }

  /** The result is the first answer, and there is none exactly when all providers were passed over. */
  lemma {:induction false} FirstAnswerWins<R>(cfg: Config, names: seq<string>, env: seq<Attempt<R>>, m: Circuits,
                                              errors: seq<string>, k: nat)
    requires |names| == |env| && Answers(cfg, names, env, m, k)
    ensures Call(cfg, names, env, m, errors).0 == Ok(env[k].outcome.value)
  {
    hide Apply, PassedOver, Pass;
    if k > 0 {
      assert PassedOver(Reached(cfg, names, env, m, 0), names[0], env[0]);
      var m' := Pass(cfg, m, names[0], env[0]);
      forall i | 0 <= i < k - 1
        ensures PassedOver(Reached(cfg, names[1..], env[1..], m', i), names[1..][i], env[1..][i])
      {
        assert PassedOver(Reached(cfg, names, env, m, i + 1), names[i + 1], env[i + 1]);
      }
      FirstAnswerWins(cfg, names[1..], env[1..], m', errors + [Reason(m, names[0], env[0])], k - 1);
    }
  }

  lemma {:induction false} SomebodyAnswers<R>(cfg: Config, names: seq<string>, env: seq<Attempt<R>>, m: Circuits,
                                              errors: seq<string>) returns (k: nat)
    requires |names| == |env| && Call(cfg, names, env, m, errors).0.Ok?
    ensures Answers(cfg, names, env, m, k)
  {
    hide Apply, PassedOver, Pass;
    if PassedOver(m, names[0], env[0]) {
      var m' := Pass(cfg, m, names[0], env[0]);
      var j := SomebodyAnswers(cfg, names[1..], env[1..], m', errors + [Reason(m, names[0], env[0])]);
      k := j + 1;
      forall i | 0 <= i < k ensures PassedOver(Reached(cfg, names, env, m, i), names[i], env[i]) {
        if i > 0 {
          assert PassedOver(Reached(cfg, names[1..], env[1..], m', i - 1), names[1..][i - 1], env[1..][i - 1]);
        }
      }
    } else {
      k := 0;
    }
  }

  /** When names are distinct and nothing else goes on, the loop finds each circuit as it was before the call. */
  lemma {:induction false} ReachedUntouched<R>(cfg: Config, names: seq<string>, env: seq<Attempt<R>>, m: Circuits,
                                               i: nat, name: string)
    requires i <= |names| == |env| && name !in names[..i] && Quiet(env)
    ensures var m' := Reached(cfg, names, env, m, i);
      (name in m' <==> name in m) && (name in m ==> m'[name] == m[name])
  {
    if i > 0 {
      assert env[0] in env && env[0].others == [];
      assert names[0] in names[..i];
      forall n | n in names[1..][..i - 1] ensures n in names[..i] {
        var j :| 0 <= j < i - 1 && names[1..][j] == n;
        assert names[..i][j + 1] == n;
      }
      ReachedUntouched(cfg, names[1..], env[1..], Pass(cfg, m, names[0], env[0]), i - 1, name);
    }
  }

  predicate Distinct(names: seq<string>) {
    forall i, j :: 0 <= i < j < |names| ==> names[i] != names[j]
  }

  /**
   * With distinct names and nothing else going on, who answers is decided by the circuits before the call:
   * provider `k` answers exactly when it is closed and succeeds, and every
   * earlier one is open or fails.
   */
  lemma FailoverOrder<R>(cfg: Config, names: seq<string>, env: seq<Attempt<R>>, m: Circuits, k: nat)
    requires |names| == |env| && Distinct(names) && Quiet(env)
    ensures Answers(cfg, names, env, m, k) <==>
      k < |names| && !PassedOver(m, names[k], env[k]) && forall i :: 0 <= i < k ==> PassedOver(m, names[i], env[i])
  {
    hide Reached;
    forall i | 0 <= i < |names|
      ensures PassedOver(Reached(cfg, names, env, m, i), names[i], env[i]) == PassedOver(m, names[i], env[i])
    {
      ReachedUntouched(cfg, names, env, m, i, names[i]);
    }
  }

  // --------------------------------------------------- states between the calls

  /** Calls one after the other. */
  function RunCalls<R>(cfg: Config, names: seq<string>, calls: seq<seq<Attempt<R>>>): Circuits
    requires forall c :: c in calls ==> |c| == |names|
  {
    if calls == [] then map[]
    else Call(cfg, names, calls[|calls| - 1], RunCalls(cfg, names, calls[..|calls| - 1]), []).1
  }

  /** What a circuit can look like between calls; in the last form it opened at `openUntil - cooldown`. */
  predicate Settled(cfg: Config, c: Circuit) {
    || c == Circuit(0, 0)
    || (cfg.threshold > 1 && c == Circuit(1, 0))
    || (c.failures == cfg.threshold && c.openUntil >= cfg.cooldown)
  }

  predicate AllSettled(cfg: Config, m: Circuits) {
    forall name :: name in m ==> Settled(cfg, m[name])
  }

  lemma {:induction false} CallSettles<R>(cfg: Config, names: seq<string>, env: seq<Attempt<R>>, m: Circuits,
                                          errors: seq<string>)
    requires |names| == |env| && cfg.threshold >= 1 && AllSettled(cfg, m) && Quiet(env)
    ensures AllSettled(cfg, Call(cfg, names, env, m, errors).1)
  {
    if names != [] { assert env[0] in env && env[0].others == []; }
    if names != [] && PassedOver(m, names[0], env[0]) {
      CallSettles(cfg, names[1..], env[1..], Pass(cfg, m, names[0], env[0]),
                  errors + [Reason(m, names[0], env[0])]);
    }
  }

  /** Between calls that do not overlap a circuit is absent or in one of three forms, whatever happened before. */
  lemma {:induction false} StatesBetweenCalls<R>(cfg: Config, names: seq<string>, calls: seq<seq<Attempt<R>>>)
    requires cfg.threshold >= 1 && forall c :: c in calls ==> |c| == |names| && Quiet(c)
    ensures AllSettled(cfg, RunCalls(cfg, names, calls))
  {
    hide Call, Settled;
    if calls != [] {
      StatesBetweenCalls(cfg, names, calls[..|calls| - 1]);
      CallSettles(cfg, names, calls[|calls| - 1], RunCalls(cfg, names, calls[..|calls| - 1]), []);
    }
  }

  /** And each of those forms does occur, at every opening time. */
  lemma EveryFormOccurs(cfg: Config, name: string, c: Circuit) returns (calls: seq<seq<Attempt<int>>>)
    requires cfg.threshold >= 1 && Settled(cfg, c)
    ensures forall call :: call in calls ==> |call| == 1 && Quiet(call)
    ensures RunCalls(cfg, [name], calls) == map[name := c]
  {
    hide Settled, RunCalls;
    if c == Circuit(0, 0) {
      calls := [[Attempt(0, [], Ok(0), 0)]];
      FirstCall(cfg, name, calls[0][0]);
    } else if c == Circuit(1, 0) && cfg.threshold > 1 {
      calls := [[Attempt(0, [], Err(""), 0)]];
      FirstCall(cfg, name, calls[0][0]);
    } else {
      SettledOpen(cfg, c);
      var a := Attempt(0, [], Err(""), c.openUntil - cfg.cooldown);
      if cfg.threshold == 1 {
        calls := [[a]];
        FirstCall(cfg, name, a);
      } else {
        var first: Attempt<int> := Attempt(0, [], Err(""), 0);
        FirstCall(cfg, name, first);
        calls := [[first]] + [[a]];
        NextFailure(cfg, name, [[first]], 1, a);
      }
    }
  }

  lemma FirstCall(cfg: Config, name: string, a: Attempt<int>)
    requires a.others == []
    ensures RunCalls(cfg, [name], [[a]])
         == map[name := if a.outcome.Ok? then Circuit(0, 0) else Failed(cfg, Circuit(0, 0), a.failedAt)]
  {
    OneMoreCall(cfg, name, [], a);
    assert [] + [[a]] == [[a]];
  }

  lemma NextFailure(cfg: Config, name: string, before: seq<seq<Attempt<int>>>, failures: int, a: Attempt<int>)
    requires cfg.threshold >= 1 && a.others == [] && a.outcome.Err? && forall call :: call in before ==> |call| == 1
    requires RunCalls(cfg, [name], before) == map[name := Circuit(failures, 0)]
    ensures forall call :: call in before + [[a]] ==> |call| == 1
    ensures RunCalls(cfg, [name], before + [[a]]) == map[name := Circuit(cfg.threshold, a.failedAt + cfg.cooldown)]
  {
    hide RunCalls;
    OneMoreCall(cfg, name, before, a);
  }

  lemma SettledOpen(cfg: Config, c: Circuit)
    requires Settled(cfg, c) && c != Circuit(0, 0) && !(c == Circuit(1, 0) && cfg.threshold > 1)
    ensures c.failures == cfg.threshold && c.openUntil >= cfg.cooldown
  {
  }

  lemma OneMoreCall(cfg: Config, name: string, before: seq<seq<Attempt<int>>>, a: Attempt<int>)
    requires forall call :: call in before ==> |call| == 1
    ensures forall call :: call in before + [[a]] ==> |call| == 1
    ensures var m := RunCalls(cfg, [name], before);
      RunCalls(cfg, [name], before + [[a]]) ==
        if PassedOver(m, name, a) then Pass(cfg, m, name, a)
        else Apply(cfg, Awaited(cfg, m, name, a), Success(name))
  {
    hide Apply, PassedOver, Pass;
    assert (before + [[a]])[..|before|] == before && (before + [[a]])[|before|] == [a];
    var m := RunCalls(cfg, [name], before);
    assert RunCalls(cfg, [name], before + [[a]]) == Call(cfg, [name], [a], m, []).1;
    if PassedOver(m, name, a) {
      assert Call(cfg, [name][1..], [a][1..], Pass(cfg, m, name, a), [Reason(m, name, a)]).1 == Pass(cfg, m, name, a);
      assert [] + [Reason(m, name, a)] == [Reason(m, name, a)];
    }
  }

  /**
   * When a failure opens the circuit. The half-open reset also runs on closed
   * circuits, so any failure opens it, unless it is the provider's first contact
   * and the threshold is above one.
   */
  lemma FailureOpensExactly<R>(cfg: Config, m: Circuits, name: string, a: Attempt<R>)
    requires cfg.threshold >= 1 && AllSettled(cfg, m)
    requires !IsOpen(m, name, a.checkedAt) && a.outcome.Err? && a.others == []
    ensures var c := Pass(cfg, m, name, a)[name];
      if name in m || cfg.threshold == 1 then c == Circuit(cfg.threshold, a.failedAt + cfg.cooldown)
      else c == Circuit(1, 0)
  {
  }

  /** So with the default threshold of three, two failures in a row already open it. */
  lemma ThresholdIsNotCounted(name: string)
    ensures var failing: seq<Attempt<int>> := [Attempt(1000, [], Err("down"), 1000)];
      RunCalls(Config(3, 30000), [name], [failing, failing]) == map[name := Circuit(3, 31000)]
  {
    var a: Attempt<int> := Attempt(1000, [], Err("down"), 1000);
    OneMoreCall(Config(3, 30000), name, [], a);
    OneMoreCall(Config(3, 30000), name, [[a]], a);
    assert [[a]] + [[a]] == [[a], [a]] && [] + [[a]] == [[a]];
  }

  // ------------------------------------------------------- any interleaving

  /** When `name` last failed, if it has not succeeded since. */
  function LastFailure(steps: seq<Step>, name: string): Option<nat> {
    if steps == [] then None
    else
      var before := LastFailure(steps[..|steps| - 1], name);
      match steps[|steps| - 1]
      case Check(_, _) => before
      case Success(n) => if n == name then None else before
      case Failure(n, now) => if n == name then Some(now) else before
  }

  /** However requests interleave, a circuit is open for at most the cooldown after its latest failure. */
  lemma {:induction false} OpenWindowsEnd(cfg: Config, steps: seq<Step>, name: string)
    ensures var m := Run(cfg, map[], steps);
      name in m && m[name].openUntil != 0 ==>
        m[name].failures >= cfg.threshold &&
        LastFailure(steps, name).Some? && m[name].openUntil == LastFailure(steps, name).value + cfg.cooldown
  {
    if steps != [] {
      OpenWindowsEnd(cfg, steps[..|steps| - 1], name);
    }
  }

  /** The steps of a call and, in their places, of the requests that overlap it. */
  function Trace<R>(names: seq<string>, env: seq<Attempt<R>>, cfg: Config, m: Circuits): seq<Step>
    requires |names| == |env|
  {
    if names == [] then []
    else
      var (name, a) := (names[0], env[0]);
      if IsOpen(m, name, a.checkedAt) then
        [Check(name, a.checkedAt)] + Trace(names[1..], env[1..], cfg, Pass(cfg, m, name, a))
      else if a.outcome.Err? then
        [Check(name, a.checkedAt)] + a.others + [Failure(name, a.failedAt)]
          + Trace(names[1..], env[1..], cfg, Pass(cfg, m, name, a))
      else [Check(name, a.checkedAt)] + a.others + [Success(name)]
  }

  lemma AskedRuns<R>(cfg: Config, m: Circuits, name: string, a: Attempt<R>, last: Step)
    ensures Run(cfg, m, [Check(name, a.checkedAt)] + a.others + [last]) == Apply(cfg, Awaited(cfg, m, name, a), last)
  {
    hide Apply;
    var check := [Check(name, a.checkedAt)];
    RunSnoc(cfg, m, check + a.others, last);
    RunAppend(cfg, m, check, a.others);
    OneCheck(cfg, m, check[0]);
  }

  lemma OneCheck(cfg: Config, m: Circuits, step: Step)
    ensures Run(cfg, m, [step]) == Apply(cfg, m, step)
  {
    hide Apply;
    assert [step][..0] == [];
  }

  /** So `OpenWindowsEnd` speaks about calls that overlap: they are runs of such steps. */
  lemma {:induction false} CallIsItsSteps<R>(cfg: Config, names: seq<string>, env: seq<Attempt<R>>, m: Circuits,
                                             errors: seq<string>)
    requires |names| == |env|
    ensures Call(cfg, names, env, m, errors).1 == Run(cfg, m, Trace(names, env, cfg, m))
  {
    hide Apply, Run, Awaited, IsOpen;
    if names == [] {
      NoSteps(cfg, m);
    } else {
      var (name, a) := (names[0], env[0]);
      if PassedOver(m, name, a) {
        var m' := Pass(cfg, m, name, a);
        var rest := Trace(names[1..], env[1..], cfg, m');
        CallIsItsSteps(cfg, names[1..], env[1..], m', errors + [Reason(m, name, a)]);
        if IsOpen(m, name, a.checkedAt) {
          OneCheck(cfg, m, Check(name, a.checkedAt));
          RunAppend(cfg, m, [Check(name, a.checkedAt)], rest);
        } else {
          AskedRuns(cfg, m, name, a, Failure(name, a.failedAt));
          RunAppend(cfg, m, [Check(name, a.checkedAt)] + a.others + [Failure(name, a.failedAt)], rest);
        }
      } else {
        AskedRuns(cfg, m, name, a, Success(name));
      }
    }
  }

  lemma NoSteps(cfg: Config, m: Circuits)
    ensures Run(cfg, m, []) == m
  {
  }

  /** The forms of `StatesBetweenCalls` are lost when calls overlap: both fail before either is checked again. */
  lemma OverlapUnsettles(name: string)
    ensures var cfg := Config(3, 30000);
      var other := [Check(name, 0), Failure(name, 0)];
      var late: Attempt<int> := Attempt(0, other, Err("down"), 0);
      var m := Call(cfg, [name], [late], map[], []).1;
      m == map[name := Circuit(2, 0)] && !AllSettled(cfg, m)
  {
    var cfg := Config(3, 30000);
    var other := [Check(name, 0), Failure(name, 0)];
    var late: Attempt<int> := Attempt(0, other, Err("down"), 0);
    assert other[..1] == [Check(name, 0)] && [Check(name, 0)][..0] == [];
    assert Run(cfg, map[], [Check(name, 0)]) == map[];
    assert Run(cfg, map[], other) == map[name := Circuit(1, 0)];
    var m := Call(cfg, [name], [late], map[], []).1;
    var passed := Pass(cfg, map[], name, late);
    assert Call(cfg, [name][1..], [late][1..], passed, [] + [Reason(map[], name, late)]).1 == passed;
    assert m == passed && name in m;
  }

  // ------------------------------------------------------------------ availability

  /** None of the steps records a failure of `name`. */
  predicate Spares(steps: seq<Step>, name: string) {
    forall s :: s in steps && s.name == name ==> !s.Failure?
  }

  predicate Closed(m: Circuits, name: string) {
    name in m ==> m[name].openUntil == 0
  }

  lemma {:induction false} NeverFailedNeverOpens(cfg: Config, m: Circuits, steps: seq<Step>, name: string)
    requires Closed(m, name) && Spares(steps, name)
    ensures Closed(Run(cfg, m, steps), name)
  {
    if steps != [] {
      NeverFailedNeverOpens(cfg, m, steps[..|steps| - 1], name);
    }
  }

  /** The last provider has a name of its own, and succeeds whenever it is asked, by this request or another. */
  ghost predicate Reliable<R>(names: seq<string>, env: seq<Attempt<R>>)
    requires |names| == |env| > 0
  {
    var last := |names| - 1;
    names[last] !in names[..last] && env[last].outcome.Ok? && forall a :: a in env ==> Spares(a.others, names[last])
  }

  lemma {:induction false} LastAnswers<R>(cfg: Config, names: seq<string>, env: seq<Attempt<R>>, m: Circuits,
                                          errors: seq<string>)
    requires |names| == |env| > 0 && Reliable(names, env) && Closed(m, names[|names| - 1])
    ensures var r := Call(cfg, names, env, m, errors);
      r.0.Ok? && Closed(r.1, names[|names| - 1])
  {
    hide Run, Spares;
    var last := names[|names| - 1];
    assert env[0] in env;
    NeverFailedNeverOpens(cfg, Apply(cfg, m, Check(names[0], env[0].checkedAt)), env[0].others, last);
    if PassedOver(m, names[0], env[0]) {
      assert |names| > 1;
      assert names[0] in names[..|names| - 1];
      assert names[1..][..|names| - 2] == names[..|names| - 1][1..];
      LastAnswers(cfg, names[1..], env[1..], Pass(cfg, m, names[0], env[0]), errors + [Reason(m, names[0], env[0])]);
    }
  }

  /**
   * If the last provider never fails, no call ever throws, whatever other requests
   * do before it and at each of its own awaits, and whatever the other providers do.
   */
  lemma NeverThrows<R>(cfg: Config, names: seq<string>, env: seq<Attempt<R>>, before: seq<Step>)
    requires |names| == |env| > 0 && Reliable(names, env) && Spares(before, names[|names| - 1])
    ensures Call(cfg, names, env, Run(cfg, map[], before), []).0.Ok?
  {
    hide Run, Spares, Reliable, Call;
    NeverFailedNeverOpens(cfg, map[], before, names[|names| - 1]);
    LastAnswers(cfg, names, env, Run(cfg, map[], before), []);
  }

  /** The same over whole runs of calls. */
  lemma {:induction false} RunsNeverThrow<R>(cfg: Config, names: seq<string>, calls: seq<seq<Attempt<R>>>, k: nat)
    requires names != [] && forall c :: c in calls ==> |c| == |names| && Reliable(names, c)
    requires k < |calls|
    ensures Call(cfg, names, calls[k], RunCalls(cfg, names, calls[..k]), []).0.Ok?
    ensures Closed(RunCalls(cfg, names, calls[..k + 1]), names[|names| - 1])
  {
    hide Call, Reliable;
    if k > 0 { RunsNeverThrow(cfg, names, calls, k - 1); }
    assert calls[..k + 1][..k] == calls[..k];
    assert calls[..k + 1][k] == calls[k];
    LastAnswers(cfg, names, calls[k], RunCalls(cfg, names, calls[..k]), []);
  }
}
