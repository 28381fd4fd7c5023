/** Particular runs of the spend protocol: one call alone, and herds of calls that overshoot together. */
module UsageRuns {
  import opened Text
  import opened Budget

  // ------------------------------------------------------------ one call alone

  datatype Outcome = Recorded | BudgetExceeded(budget: int, spent: int)

  /** The services on one organization's tables, one call at a time. */
  class Usage {
    var rows: Rows
    var events: seq<int>

    constructor ()
      ensures rows == map[] && events == []
    {
      rows, events := map[], [];
    }

    method AssertWithinBudget(period: nat, budget: Option<int>, additional: int) returns (r: Outcome)
      modifies this`rows
      ensures budget.None? ==> r == Recorded && rows == old(rows)
      ensures budget.Some? ==>
        var row := if period in old(rows) then old(rows)[period] else Row(0, false);
        var refused := row.stopped || row.spent + additional > budget.value;
        r == (if refused then BudgetExceeded(budget.value, row.spent) else Recorded) &&
        rows == old(rows)[period := row.(stopped := refused)]
    {
      if budget.None? { return Recorded; }
      if period !in rows { rows := rows[period := Row(0, false)]; }
      var row := rows[period];
      if row.stopped || row.spent + additional > budget.value {
        if !row.stopped {
          rows := rows[period := row.(stopped := true)];
        }
        return BudgetExceeded(budget.value, row.spent);
      }
      return Recorded;
    }

    method RecordSpend(period: nat, cost: int)
      modifies this`rows
      ensures rows == if cost <= 0 then old(rows)
                      else old(rows)[period := RowAt(old(rows), period).(spent := Spent(old(rows), period) + cost)]
    {
      if cost <= 0 { return; }
      if period in rows {
        rows := rows[period := rows[period].(spent := rows[period].spent + cost)];
      } else {
        rows := rows[period := Row(cost, false)];
      }
    }

    /** A call that nothing interrupts does what the steps of `Alone` do. */
    method Record(period: nat, budget: Option<int>, cost: int) returns (r: Outcome)
      modifies this
      ensures var before := State(period, old(rows), old(events), []);
        Runs(before, Alone(before, cost, budget)) &&
        var after := After(before, Alone(before, cost, budget));
        rows == after.rows && events == after.events &&
        after.calls == [if r.Recorded? then Done else Refused] &&
        (r.BudgetExceeded? ==> budget == Some(r.budget) && r.spent == Spent(old(rows), period))
    {
      ghost var before := State(period, rows, events, []);
      AloneRuns(before, cost, budget);
      r := AssertWithinBudget(period, budget, cost);
      if r.BudgetExceeded? { return; }
      events := events + [cost];
      RecordSpend(period, cost);
    }
  }

  function Alone(s: State, cost: int, budget: Option<int>): seq<Step> {
    var i := |s.calls|;
    var log := [Log(i), Key(i)] + if cost <= 0 then [] else [Spend(i)];
    if budget.None? then [Begin(cost), Read(i, budget)] + log
    else
      var row := RowAt(s.rows, s.period);
      [Begin(cost), Read(i, budget), Check(i)] +
        if !Exceeds(row, cost, budget.value) then log else if row.stopped then [] else [Stop(i)]
  }

  lemma {:induction false} RunsAppend(s: State, a: seq<Step>, b: seq<Step>)
    requires Runs(s, a) && Runs(After(s, a), b)
    ensures Runs(s, a + b) && After(s, a + b) == After(After(s, a), b)
    decreases |a|
  {
    hide Enabled, Next;
    if a == [] {
      assert a + b == b;
    } else {
      assert (a + b)[1..] == a[1..] + b;
      RunsAppend(Next(s, a[0]), a[1..], b);
    }
  }

  lemma OneStep(s: State, step: Step)
    requires Enabled(s, step)
    ensures Runs(s, [step]) && After(s, [step]) == Next(s, step)
  {
    hide Enabled, Next;
    assert [step][1..] == [];
  }

  lemma TwoSteps(s: State, a: Step, b: Step)
    requires Enabled(s, a) && Enabled(Next(s, a), b)
    ensures Runs(s, [a, b]) && After(s, [a, b]) == Next(Next(s, a), b)
  {
    hide Enabled, Next;
    OneStep(s, a);
    OneStep(Next(s, a), b);
    RunsAppend(s, [a], [b]);
    assert [a] + [b] == [a, b];
  }

  /** From a passed check on: write the event, then increment. */
  lemma LogRuns(s: State, i: nat, cost: int)
    requires i < |s.calls| && s.calls[i] == Passed(cost)
    ensures var log := [Log(i), Key(i)] + if cost <= 0 then [] else [Spend(i)];
      Runs(s, log) &&
      After(s, log) == State(s.period,
        if cost <= 0 then s.rows else s.rows[s.period := RowAt(s.rows, s.period).(spent := Spent(s.rows, s.period) + cost)],
        s.events + [cost], s.calls[i := Done])
  {
    hide Runs, After, RowAt, Spent;
    KeyRuns(s, i, cost);
    if cost <= 0 {
      assert [Log(i), Key(i)] + [] == [Log(i), Key(i)];
    } else {
      var t := State(s.period, s.rows, s.events + [cost], s.calls[i := Spending(cost, s.period)]);
      SpendRuns(t, i);
      RunsAppend(s, [Log(i), Key(i)], [Spend(i)]);
      assert t.calls[i := Done] == s.calls[i := Done];
    }
  }

  lemma KeyRuns(s: State, i: nat, cost: int)
    requires i < |s.calls| && s.calls[i] == Passed(cost)
    ensures var steps := [Log(i), Key(i)];
      Runs(s, steps) &&
      After(s, steps) == State(s.period, s.rows, s.events + [cost],
                               s.calls[i := if cost <= 0 then Done else Spending(cost, s.period)])
  {
    hide Runs, After;
    TwoSteps(s, Log(i), Key(i));
    var t := Next(Next(s, Log(i)), Key(i));
    assert t.calls == s.calls[i := t.calls[i]];
  }

  lemma SpendRuns(s: State, i: nat)
    requires i < |s.calls| && s.calls[i].Spending?
    ensures var Spending(cost, key) := s.calls[i];
      Runs(s, [Spend(i)]) &&
      After(s, [Spend(i)]) == State(s.period, s.rows[key := RowAt(s.rows, key).(spent := Spent(s.rows, key) + cost)],
                                    s.events, s.calls[i := Done])
  {
    hide Runs, After;
    OneStep(s, Spend(i));
  }

  /** The state in which a call ends when nothing interrupts it. */
  function AloneEnds(s: State, cost: int, budget: Option<int>): State {
    var row := RowAt(s.rows, s.period);
    var refused := budget.Some? && Exceeds(row, cost, budget.value);
    var checked := if budget.None? then s.rows else s.rows[s.period := row.(stopped := refused)];
    if refused then State(s.period, checked, s.events, [Refused])
    else if cost <= 0 then State(s.period, checked, s.events + [cost], [Done])
    else State(s.period, checked[s.period := RowAt(checked, s.period).(spent := Spent(checked, s.period) + cost)],
               s.events + [cost], [Done])
  }

  lemma ReadRuns(s: State, cost: int, budget: Option<int>)
    requires s.calls == []
    ensures var steps := [Begin(cost), Read(0, budget)];
      Runs(s, steps) &&
      After(s, steps) == s.(calls := [if budget.None? then Passed(cost) else Checking(cost, budget.value, s.period)])
  {
    TwoSteps(s, Begin(cost), Read(0, budget));
  }

  lemma CheckRuns(s: State, cost: int, budget: int)
    requires s.calls == []
    ensures var row := RowAt(s.rows, s.period);
      var steps := [Begin(cost), Read(0, Some(budget)), Check(0)];
      Runs(s, steps) &&
      After(s, steps) == State(s.period, s.rows[s.period := row], s.events,
        [if !Exceeds(row, cost, budget) then Passed(cost) else if row.stopped then Refused else Stopping(s.period)])
  {
    ReadRuns(s, cost, Some(budget));
    var t := s.(calls := [Checking(cost, budget, s.period)]);
    OneStep(t, Check(0));
    assert t.calls[0 := Next(t, Check(0)).calls[0]] == Next(t, Check(0)).calls;
    RunsAppend(s, [Begin(cost), Read(0, Some(budget))], [Check(0)]);
    assert [Begin(cost), Read(0, Some(budget))] + [Check(0)] == [Begin(cost), Read(0, Some(budget)), Check(0)];
  }

  lemma PassedRuns(s: State, first: seq<Step>, t: State, cost: int)
    requires Runs(s, first) && After(s, first) == t && t.calls == [Passed(cost)]
    ensures var steps := first + ([Log(0), Key(0)] + if cost <= 0 then [] else [Spend(0)]);
      Runs(s, steps) &&
      After(s, steps) == State(t.period,
        if cost <= 0 then t.rows else t.rows[t.period := RowAt(t.rows, t.period).(spent := Spent(t.rows, t.period) + cost)],
        t.events + [cost], [Done])
  {
    hide Runs, After;
    LogRuns(t, 0, cost);
    assert t.calls[0 := Done] == [Done];
    RunsAppend(s, first, [Log(0), Key(0)] + if cost <= 0 then [] else [Spend(0)]);
  }

  /** A call that runs from start to end without interruption. */
  lemma AloneRuns(s: State, cost: int, budget: Option<int>)
    requires s.calls == []
    ensures Runs(s, Alone(s, cost, budget)) && After(s, Alone(s, cost, budget)) == AloneEnds(s, cost, budget)
  {
    hide Runs, After;
    if budget.None? {
      ReadRuns(s, cost, budget);
      PassedRuns(s, [Begin(cost), Read(0, budget)], s.(calls := [Passed(cost)]), cost);
    } else {
      CheckRuns(s, cost, budget.value);
      var first := [Begin(cost), Read(0, budget), Check(0)];
      var row := RowAt(s.rows, s.period);
      var t := After(s, first);
      if !Exceeds(row, cost, budget.value) {
        PassedRuns(s, first, t, cost);
      } else if row.stopped {
        assert first + [] == first;
      } else {
        OneStep(t, Stop(0));
        assert t.calls[0 := Refused] == [Refused];
        RunsAppend(s, first, [Stop(0)]);
      }
    }
  }

  // ------------------------------------------------------- the bound is attained

  /** `n` calls of cost `b`, each past its check. */
  function Herd(n: nat, b: nat): seq<Step> {
    if n == 0 then [] else Herd(n - 1, b) + [Begin(b), Read(n - 1, Some(b)), Check(n - 1)]
  }

  /** The first `m` of them write their events and increment. */
  function Stampede(m: nat): seq<Step> {
    if m == 0 then [] else Stampede(m - 1) + [Log(m - 1), Key(m - 1), Spend(m - 1)]
  }

  function Mob(m: nat, n: nat, b: nat): seq<Phase>
    requires m <= n
  {
    if n == 0 then [] else Mob(if m == n then m - 1 else m, n - 1, b) + [if m == n then Done else Passed(b)]
  }

  lemma {:induction false} MobAt(m: nat, n: nat, b: nat, i: nat)
    requires m <= n && i < n
    ensures |Mob(m, n, b)| == n && Mob(m, n, b)[i] == if i < m then Done else Passed(b)
  {
    var m' := if m == n then m - 1 else m;
    if n == 1 {
      assert Mob(m', 0, b) == [];
    } else {
      MobAt(m', n - 1, b, if i < n - 1 then i else 0);
    }
  }

  lemma MobMoves(m: nat, n: nat, b: nat)
    requires m < n
    ensures |Mob(m, n, b)| == n && Mob(m, n, b)[m] == Passed(b)
    ensures Mob(m, n, b)[m := Done] == Mob(m + 1, n, b)
  {
    hide Mob;
    forall i | 0 <= i < n
      ensures |Mob(m, n, b)| == n == |Mob(m + 1, n, b)|
      ensures Mob(m, n, b)[i] == (if i < m then Done else Passed(b))
      ensures Mob(m + 1, n, b)[i] == (if i < m + 1 then Done else Passed(b))
    {
      MobAt(m, n, b, i);
      MobAt(m + 1, n, b, i);
    }
    MobAt(m, n, b, m);
    MobAt(m + 1, n, b, m);
  }

  lemma HerdSteps(n: nat, b: nat, s: State)
    requires s.period == 0 && s.calls == Mob(0, n, b) && |s.calls| == n && Exceeds(RowAt(s.rows, 0), b, b) == false
    ensures var steps := [Begin(b), Read(n, Some(b)), Check(n)];
      Runs(s, steps) && After(s, steps) == State(0, s.rows[0 := RowAt(s.rows, 0)], s.events, Mob(0, n + 1, b))
  {
    TwoSteps(s, Begin(b), Read(n, Some(b)));
    var t := Next(Next(s, Begin(b)), Read(n, Some(b)));
    OneStep(t, Check(n));
    RunsAppend(s, [Begin(b), Read(n, Some(b))], [Check(n)]);
    assert [Begin(b), Read(n, Some(b))] + [Check(n)] == [Begin(b), Read(n, Some(b)), Check(n)];
    assert Next(t, Check(n)).calls == s.calls + [Passed(b)];
  }

  lemma {:induction false} HerdRuns(n: nat, b: nat)
    requires n >= 1
    ensures Runs(INITIAL, Herd(n, b))
    ensures After(INITIAL, Herd(n, b)) == State(0, map[0 := Row(0, false)], [], Mob(0, n, b))
  {
    hide Runs, After, Mob;
    if n == 1 {
      assert Mob(0, 0, b) == [] by { MobIsEmpty(b); }
      HerdSteps(0, b, INITIAL);
      assert Herd(0, b) + [Begin(b), Read(0, Some(b)), Check(0)] == [Begin(b), Read(0, Some(b)), Check(0)];
    } else {
      HerdRuns(n - 1, b);
      var s := After(INITIAL, Herd(n - 1, b));
      MobAt(0, n - 1, b, 0);
      HerdSteps(n - 1, b, s);
      RunsAppend(INITIAL, Herd(n - 1, b), [Begin(b), Read(n - 1, Some(b)), Check(n - 1)]);
      assert s.rows[0 := Row(0, false)] == s.rows;
    }
  }

  lemma MobIsEmpty(b: nat)
    ensures Mob(0, 0, b) == []
  {
  }

  lemma StampedeSteps(s: State, m: nat, n: nat, b: nat)
    requires m < n && b > 0 && s.period == 0 && s.calls == Mob(m, n, b)
    ensures var steps := [Log(m), Key(m), Spend(m)];
      Runs(s, steps) && After(s, steps).period == 0 &&
      After(s, steps).calls == Mob(m + 1, n, b) &&
      Spent(After(s, steps).rows, 0) == Spent(s.rows, 0) + b
  {
    hide Mob, Runs, After;
    MobMoves(m, n, b);
    LogRuns(s, m, b);
    assert [Log(m), Key(m)] + [Spend(m)] == [Log(m), Key(m), Spend(m)];
  }

  lemma {:induction false} StampedeRuns(s: State, m: nat, n: nat, b: nat)
    requires m <= n && b > 0 && s.period == 0 && s.calls == Mob(0, n, b)
    ensures Runs(s, Stampede(m))
    ensures var t := After(s, Stampede(m));
      t.period == 0 && t.calls == Mob(m, n, b) && Spent(t.rows, 0) == Spent(s.rows, 0) + m * b
  {
    hide Mob, Runs, After, Spent;
    if m == 0 {
      NoSteps(s);
    } else {
      StampedeRuns(s, m - 1, n, b);
      var t := After(s, Stampede(m - 1));
      StampedeSteps(t, m - 1, n, b);
      RunsAppend(s, Stampede(m - 1), [Log(m - 1), Key(m - 1), Spend(m - 1)]);
      assert m * b == (m - 1) * b + b;
    }
  }

  lemma NoSteps(s: State)
    ensures Runs(s, []) && After(s, []) == s
  {
  }

  lemma {:induction false} FewCallsFewExposed(s: State, steps: seq<Step>, k: nat)
    requires Runs(s, steps) && |After(s, steps).calls| <= k
    ensures |s.calls| <= k && AtMost(s, steps, k)
    decreases |steps|
  {
    hide Sum;
    ExposedAtMostAll(s.calls, s.period);
    if steps != [] {
      FewCallsFewExposed(Next(s, steps[0]), steps[1..], k);
    }
  }

  lemma {:induction false} ExposedAtMostAll(calls: seq<Phase>, now: nat)
    ensures Sum(Exposed(now), calls) <= |calls|
  {
    if calls != [] { ExposedAtMostAll(calls[1..], now); }
  }

  /** No better bound holds: `k` overlapping calls that each cost the whole budget reach it. */
  lemma OvershootIsAttained(b: nat, k: nat) returns (steps: seq<Step>)
    requires b > 0 && k >= 1
    ensures Runs(INITIAL, steps) && AtMost(INITIAL, steps, k)
    ensures forall x :: x in steps ==> InForce(x, b, b) && !x.Rollover?
    ensures Spent(After(INITIAL, steps).rows, 0) == b + (k - 1) * b
  {
    hide Runs, After, AtMost, Mob;
    HerdRuns(k, b);
    var s := After(INITIAL, Herd(k, b));
    StampedeRuns(s, k, k, b);
    steps := Herd(k, b) + Stampede(k);
    RunsAppend(INITIAL, Herd(k, b), Stampede(k));
    MobAt(k, k, b, 0);
    FewCallsFewExposed(INITIAL, steps, k);
    HerdInForce(k, b);
    StampedeInForce(k, b);
    assert k * b == b + (k - 1) * b;
  }

  lemma {:induction false} HerdInForce(n: nat, b: nat)
    ensures forall x :: x in Herd(n, b) ==> InForce(x, b, b) && !x.Rollover?
  {
    if n > 0 { HerdInForce(n - 1, b); }
  }

  lemma {:induction false} StampedeInForce(m: nat, b: nat)
    ensures forall x :: x in Stampede(m) ==> InForce(x, b, b) && !x.Rollover?
  {
    if m > 0 { StampedeInForce(m - 1, b); }
  }
}
