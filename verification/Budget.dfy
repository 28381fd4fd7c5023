/**
 * Spend caps: usage is recorded in three steps (check the budget, write the usage
 * event, increment the period's spend) that interleave between requests. The
 * model follows one organization; its months are numbered.
 */
module Budget {
  import opened Text

  /** One month's row: what was spent, and whether spending was stopped. */
  datatype Row = Row(spent: int, stopped: bool)

  type Rows = map<nat, Row>

  /** Where a call to `record` is suspended. */
  datatype Phase =
    | Started(cost: int)
    | Checking(cost: int, budget: int, key: nat)
    | Stopping(key: nat)
    | Passed(cost: int)
    | Logged(cost: int)
    | Spending(cost: int, key: nat)
    | Done
    | Refused
    | Lost(cost: int)

  datatype State = State(period: nat, rows: Rows, events: seq<int>, calls: seq<Phase>)

  datatype Step =
    | Begin(cost: int)
    | Read(i: nat, budget: Option<int>)
    | Check(i: nat)
    | Stop(i: nat)
    | Log(i: nat)
    | Key(i: nat)
    | Spend(i: nat)
    | Abandon(i: nat)
    | Rollover(period: nat)

  function RowAt(rows: Rows, p: nat): Row {
    if p in rows then rows[p] else Row(0, false)
  }

  function Spent(rows: Rows, p: nat): int {
    RowAt(rows, p).spent
  }

  predicate Exceeds(row: Row, cost: int, budget: int) {
    row.stopped || row.spent + cost > budget
  }

  function Charge(cost: int): nat {
    if cost <= 0 then 0 else cost
  }

  predicate Enabled(s: State, step: Step) {
    match step
    case Begin(_) => true
    case Rollover(p) => p > s.period
    case Read(i, _) => i < |s.calls| && s.calls[i].Started?
    case Check(i) => i < |s.calls| && s.calls[i].Checking?
    case Stop(i) => i < |s.calls| && s.calls[i].Stopping?
    case Log(i) => i < |s.calls| && s.calls[i].Passed?
    case Key(i) => i < |s.calls| && s.calls[i].Logged?
    case Spend(i) => i < |s.calls| && s.calls[i].Spending?
    case Abandon(i) => i < |s.calls|
  }

  function Move(s: State, i: nat, ph: Phase): State
    requires i < |s.calls|
  {
    s.(calls := s.calls[i := ph])
  }

  /** A request that dies keeps what it did; after its event is written, its cost is never spent. */
  function Dead(ph: Phase): Phase {
    match ph
    case Logged(c) => Lost(c)
    case Spending(c, _) => Lost(c)
    case Done => Done
    case Lost(c) => Lost(c)
    case _ => Refused
  }

  function Next(s: State, step: Step): State
    requires Enabled(s, step)
  {
    match step
    case Begin(cost) => s.(calls := s.calls + [Started(cost)])
    case Rollover(p) => s.(period := p)
    case Read(i, budget) =>
      var cost := s.calls[i].cost;
      Move(s, i, if budget.None? then Passed(cost) else Checking(cost, budget.value, s.period))
    case Check(i) =>
      var Checking(cost, budget, key) := s.calls[i];
      var row := RowAt(s.rows, key);
      Move(s.(rows := s.rows[key := row]), i,
           if !Exceeds(row, cost, budget) then Passed(cost) else if row.stopped then Refused else Stopping(key))
    case Stop(i) =>
      var key := s.calls[i].key;
      Move(s.(rows := s.rows[key := RowAt(s.rows, key).(stopped := true)]), i, Refused)
    case Log(i) =>
      var cost := s.calls[i].cost;
      Move(s.(events := s.events + [cost]), i, Logged(cost))
    case Key(i) =>
      var cost := s.calls[i].cost;
      Move(s, i, if cost <= 0 then Done else Spending(cost, s.period))
    case Spend(i) =>
      var Spending(cost, key) := s.calls[i];
      var row := RowAt(s.rows, key);
      Move(s.(rows := s.rows[key := row.(spent := row.spent + cost)]), i, Done)
    case Abandon(i) => Move(s, i, Dead(s.calls[i]))
  }

  predicate Runs(s: State, steps: seq<Step>)
    decreases |steps|
  {
    steps == [] || (Enabled(s, steps[0]) && Runs(Next(s, steps[0]), steps[1..]))
  }

  function After(s: State, steps: seq<Step>): State
    requires Runs(s, steps)
    decreases |steps|
  {
    if steps == [] then s else After(Next(s, steps[0]), steps[1..])
  }

  const INITIAL := State(0, map[], [], [])

  // ---------------------------------------------------------------- sums over calls

  /**
   * Share(q, now): what a call may still add to month `q` without another check.
   * Exposed(now): whether it is past its check, or checks against a month that is over.
   * Owed: what its event says but no row has.
   */
  datatype Measure = Share(q: nat, now: nat) | Exposed(now: nat) | Owed

  function Weigh(w: Measure, ph: Phase): nat {
    match w
    case Share(q, now) =>
      (match ph
       case Spending(c, key) => if key == q then Charge(c) else 0
       case Passed(c) => if q == now then Charge(c) else 0
       case Logged(c) => if q == now then Charge(c) else 0
       case Checking(c, _, key) => if q == now && key != now then Charge(c) else 0
       case _ => 0)
    case Exposed(now) =>
      if ph.Passed? || ph.Logged? || ph.Spending? || (ph.Checking? && ph.key != now) then 1 else 0
    case Owed =>
      if ph.Logged? || ph.Spending? || ph.Lost? then Charge(ph.cost) else 0
  }

  function Sum(w: Measure, calls: seq<Phase>): nat {
    if calls == [] then 0 else Weigh(w, calls[0]) + Sum(w, calls[1..])
  }

  lemma {:induction false} SumMove(w: Measure, calls: seq<Phase>, i: nat, ph: Phase)
    requires i < |calls|
    ensures Sum(w, calls[i := ph]) == Sum(w, calls) - Weigh(w, calls[i]) + Weigh(w, ph)
  {
    hide Weigh;
    if i == 0 {
      assert calls[0 := ph][1..] == calls[1..];
    } else {
      SumMove(w, calls[1..], i - 1, ph);
      assert calls[i := ph][1..] == calls[1..][i - 1 := ph];
    }
  }

  lemma {:induction false} SumSnoc(w: Measure, calls: seq<Phase>, ph: Phase)
    ensures Sum(w, calls + [ph]) == Sum(w, calls) + Weigh(w, ph)
  {
    hide Weigh;
    if calls == [] {
      assert [ph][1..] == [];
      assert calls + [ph] == [ph];
    } else {
      assert (calls + [ph])[1..] == calls[1..] + [ph];
      SumSnoc(w, calls[1..], ph);
    }
  }

  lemma {:induction false} SumMonotone(v: Measure, w: Measure, calls: seq<Phase>)
    requires forall ph :: ph in calls ==> Weigh(v, ph) <= Weigh(w, ph)
    ensures Sum(v, calls) <= Sum(w, calls)
  {
    hide Weigh;
    if calls != [] { SumMonotone(v, w, calls[1..]); }
  }

  /** Each exposed call can add at most `c`. */
  lemma {:induction false} ShareBounded(q: nat, now: nat, calls: seq<Phase>, c: nat)
    requires forall ph :: ph in calls ==> CostAtMost(ph, c)
    ensures Sum(Share(q, now), calls) <= c * Sum(Exposed(now), calls)
  {
    if calls != [] {
      ShareBounded(q, now, calls[1..], c);
      assert CostAtMost(calls[0], c);
      var e, n := Weigh(Exposed(now), calls[0]), Sum(Exposed(now), calls[1..]);
      assert c * (e + n) == c * e + c * n;
    }
  }

  predicate CostAtMost(ph: Phase, c: nat) {
    !ph.Done? && !ph.Refused? && !ph.Stopping? ==> ph.cost <= c
  }

  // ------------------------------------------------------------------- overshoot

  /** Costs are at most `c`, budgets at most `b`, and nothing lies in a future month. */
  predicate Fine(s: State, b: nat, c: nat) {
    (forall ph :: ph in s.calls ==> FinePhase(ph, s.period, b, c)) && forall p :: p in s.rows ==> p <= s.period
  }

  predicate FinePhase(ph: Phase, now: nat, b: nat, c: nat) {
    CostAtMost(ph, c) && (ph.Checking? ==> ph.budget <= b) &&
    (ph.Checking? || ph.Stopping? || ph.Spending? ==> ph.key <= now)
  }

  /** A budget of at most `b` is in force and no call costs more than `c`. */
  predicate InForce(step: Step, b: nat, c: nat) {
    match step
    case Begin(cost) => cost <= c
    case Read(_, budget) => budget.Some? && budget.value <= b
    case _ => true
  }

  lemma FineKept(s: State, step: Step, b: nat, c: nat)
    requires Fine(s, b, c) && Enabled(s, step) && InForce(step, b, c)
    ensures Fine(Next(s, step), b, c)
  {
    var t := Next(s, step);
    forall ph | ph in t.calls ensures FinePhase(ph, t.period, b, c) {
      var j :| 0 <= j < |t.calls| && t.calls[j] == ph;
      if j < |s.calls| {
        assert s.calls[j] in s.calls;
        assert FinePhase(s.calls[j], s.period, b, c);
      }
    }
    forall p | p in t.rows ensures p <= t.period {
      if p !in s.rows {
        assert step.Check? || step.Stop? || step.Spend?;
        assert s.calls[step.i] in s.calls;
        assert FinePhase(s.calls[step.i], s.period, b, c);
      }
    }
  }

  function Exposure(s: State, q: nat): int {
    Spent(s.rows, q) + Sum(Share(q, s.period), s.calls)
  }

  /** A step of one call, other than a passed check against the current month, adds nothing. */
  lemma StepAddsNothing(s: State, step: Step, q: nat)
    requires Enabled(s, step) && !step.Rollover? && (step.Read? ==> step.budget.Some?)
    ensures var t := Next(s, step);
      Exposure(t, q) <= Exposure(s, q) ||
      (step.Check? && q == s.period && var ph := s.calls[step.i];
        ph.key == q && t.calls[step.i] == Passed(ph.cost) && 0 < ph.cost <= ph.budget - Spent(s.rows, q) &&
        Exposure(t, q) == Exposure(s, q) + ph.cost)
  {
    hide Sum;
    var t := Next(s, step);
    var w := Share(q, s.period);
    if step.Begin? {
      SumSnoc(w, s.calls, Started(step.cost));
    } else {
      SumMove(w, s.calls, step.i, t.calls[step.i]);
    }
  }

  /** The bound survives every step, as long as at most `k` calls are exposed after it. */
  lemma StepKeepsBound(s: State, step: Step, q: nat, b: nat, c: nat, k: nat, limit: int)
    requires Fine(s, b, c) && Enabled(s, step) && InForce(step, b, c)
    requires k >= 1 && limit >= b + (k - 1) * c && (step.Rollover? ==> limit >= k * c)
    requires var t := Next(s, step); Sum(Exposed(t.period), t.calls) <= k
    requires Exposure(s, q) <= limit
    ensures Exposure(Next(s, step), q) <= limit
  {
    hide Sum, Weigh;
    var t := Next(s, step);
    forall ph | ph in s.calls ensures CostAtMost(ph, c) { assert FinePhase(ph, s.period, b, c); }
    if step.Rollover? {
      var n := Sum(Exposed(t.period), t.calls);
      ShareBounded(q, t.period, s.calls, c);
      TimesMonotone(c, n, k);
      if q != t.period { RolloverSheds(s.calls, q, s.period, t.period); }
    } else {
      StepAddsNothing(s, step, q);
      if Exposure(t, q) > Exposure(s, q) {
        var ph := s.calls[step.i];
        assert ph in s.calls && FinePhase(ph, s.period, b, c);
        ShareBounded(q, s.period, s.calls, c);
        SumMove(Exposed(s.period), s.calls, step.i, t.calls[step.i]);
        CheckExposes(ph, s.period);
        TimesMonotone(c, Sum(Exposed(s.period), s.calls), k - 1);
      }
    }
  }

  lemma CheckExposes(ph: Phase, now: nat)
    requires ph.Checking? && ph.key == now
    ensures Weigh(Exposed(now), Passed(ph.cost)) == 1 && Weigh(Exposed(now), ph) == 0
  {
  }

  lemma TimesMonotone(c: nat, m: nat, n: nat)
    requires m <= n
    ensures c * m <= n * c
  {
    assert c * (n - m) >= 0;
  }

  lemma RolloverSheds(calls: seq<Phase>, q: nat, earlier: nat, now: nat)
    requires q != now
    ensures Sum(Share(q, now), calls) <= Sum(Share(q, earlier), calls)
  {
    SumMonotone(Share(q, now), Share(q, earlier), calls);
  }

  /** In every state of the run at most `k` calls are exposed. */
  predicate AtMost(s: State, steps: seq<Step>, k: nat)
    requires Runs(s, steps)
    decreases |steps|
  {
    Sum(Exposed(s.period), s.calls) <= k && (steps == [] || AtMost(Next(s, steps[0]), steps[1..], k))
  }

  lemma {:induction false} RunKeepsBound(s: State, steps: seq<Step>, q: nat, b: nat, c: nat, k: nat, limit: int)
    requires Runs(s, steps) && Fine(s, b, c) && forall x :: x in steps ==> InForce(x, b, c)
    requires k >= 1 && AtMost(s, steps, k)
    requires limit >= b + (k - 1) * c && forall x :: x in steps && x.Rollover? ==> limit >= k * c
    requires Exposure(s, q) <= limit
    ensures Exposure(After(s, steps), q) <= limit
    decreases |steps|
  {
    hide Enabled, Next, Fine, InForce, Exposure, Sum;
    if steps != [] {
      FineKept(s, steps[0], b, c);
      assert AtMost(Next(s, steps[0]), steps[1..], k);
      StepKeepsBound(s, steps[0], q, b, c, k, limit);
      RunKeepsBound(Next(s, steps[0]), steps[1..], q, b, c, k, limit);
    }
  }

  lemma Times(m: nat, c: nat)
    ensures m * c >= 0
  {
  }

  lemma InitiallyFine(q: nat, b: nat, c: nat)
    ensures Fine(INITIAL, b, c) && Exposure(INITIAL, q) == 0
  {
  }

  lemma SpentWithinExposure(s: State, q: nat)
    ensures Spent(s.rows, q) <= Exposure(s, q)
  {
  }

  /**
   * The overshoot bound within a month: with at most `k` calls between their check
   * and their increment, spent plus pending cost stays within `b + (k - 1) * c`.
   */
  lemma OvershootBound(steps: seq<Step>, b: nat, c: nat, k: nat)
    requires Runs(INITIAL, steps) && k >= 1 && AtMost(INITIAL, steps, k)
    requires forall x :: x in steps ==> InForce(x, b, c) && !x.Rollover?
    ensures Exposure(After(INITIAL, steps), 0) <= b + (k - 1) * c
    ensures Spent(After(INITIAL, steps).rows, 0) <= b + (k - 1) * c
  {
    hide *;
    Times(k - 1, c);
    InitiallyFine(0, b, c);
    RunKeepsBound(INITIAL, steps, 0, b, c, k, b + (k - 1) * c);
    SpentWithinExposure(After(INITIAL, steps), 0);
  }

  /** Across months: a month can also open with `k` calls that were checked against the last one. */
  lemma OvershootBoundAcrossMonths(steps: seq<Step>, q: nat, b: nat, c: nat, k: nat)
    requires Runs(INITIAL, steps) && k >= 1 && AtMost(INITIAL, steps, k)
    requires forall x :: x in steps ==> InForce(x, b, c)
    ensures Spent(After(INITIAL, steps).rows, q) <= b + (k - 1) * c || Spent(After(INITIAL, steps).rows, q) <= k * c
  {
    hide *;
    Times(k - 1, c);
    InitiallyFine(q, b, c);
    SpentWithinExposure(After(INITIAL, steps), q);
    var limit := if b + (k - 1) * c >= k * c then b + (k - 1) * c else k * c;
    RunKeepsBound(INITIAL, steps, q, b, c, k, limit);
  }

  // --------------------------------------------------------------------- hard stop

  /** A stopped month stays stopped, and only calls that were already exposed can still add to it. */
  lemma StoppedStep(s: State, step: Step)
    requires Enabled(s, step) && !step.Rollover? && (step.Read? ==> step.budget.Some?)
    requires RowAt(s.rows, s.period).stopped
    ensures var t := Next(s, step);
      RowAt(t.rows, s.period).stopped && t.period == s.period && Exposure(t, s.period) <= Exposure(s, s.period) &&
      |t.calls| >= |s.calls| &&
      forall i :: 0 <= i < |t.calls| && Weigh(Exposed(s.period), t.calls[i]) == 1 ==>
        i < |s.calls| && Weigh(Exposed(s.period), s.calls[i]) == 1
  {
    StepAddsNothing(s, step, s.period);
  }

  lemma {:induction false} StoppedMonthOnlyDrains(s: State, steps: seq<Step>)
    requires Runs(s, steps) && RowAt(s.rows, s.period).stopped
    requires forall x :: x in steps ==> !x.Rollover? && (x.Read? ==> x.budget.Some?)
    ensures var t := After(s, steps);
      RowAt(t.rows, s.period).stopped && t.period == s.period && Exposure(t, s.period) <= Exposure(s, s.period) &&
      forall i :: 0 <= i < |t.calls| && Weigh(Exposed(s.period), t.calls[i]) == 1 ==>
        i < |s.calls| && Weigh(Exposed(s.period), s.calls[i]) == 1
    decreases |steps|
  {
    hide Enabled, Next, Exposure, Weigh, RowAt;
    if steps != [] {
      StoppedStep(s, steps[0]);
      var t := Next(s, steps[0]);
      StoppedMonthOnlyDrains(t, steps[1..]);
    }
  }

  // ------------------------------------------------------------------- conservation

  /** Everything spent in the first `n` months. */
  function Total(rows: Rows, n: nat): int {
    if n == 0 then 0 else Total(rows, n - 1) + Spent(rows, n - 1)
  }

  /** What the events charge; a cost that is not positive charges nothing. */
  function Charged(events: seq<int>): nat {
    if events == [] then 0 else Charge(events[0]) + Charged(events[1..])
  }

  function EventSum(events: seq<int>): int {
    if events == [] then 0 else events[0] + EventSum(events[1..])
  }

  lemma {:induction false} ChargedIsSum(events: seq<int>)
    ensures Charged(events) >= EventSum(events)
    ensures Charged(events) == EventSum(events) <==> forall e :: e in events ==> e >= 0
  {
    if events != [] {
      ChargedIsSum(events[1..]);
      if events[0] >= 0 && forall e :: e in events[1..] ==> e >= 0 {
        forall e | e in events ensures e >= 0 {
          assert e == events[0] || e in events[1..];
        }
      } else if events[0] < 0 {
        assert events[0] in events;
      } else {
        var e :| e in events[1..] && e < 0;
        assert e in events;
      }
    }
  }

  lemma {:induction false} ChargedSnoc(events: seq<int>, e: int)
    ensures Charged(events + [e]) == Charged(events) + Charge(e)
  {
    if events == [] {
      assert events + [e] == [e] && [e][1..] == [];
    } else {
      ChargedSnoc(events[1..], e);
      assert (events + [e])[1..] == events[1..] + [e];
    }
  }

  lemma {:induction false} TotalUpdate(rows: Rows, p: nat, row: Row, n: nat)
    ensures Total(rows[p := row], n) == Total(rows, n) + if p < n then row.spent - Spent(rows, p) else 0
  {
    if n > 0 { TotalUpdate(rows, p, row, n - 1); }
  }

  lemma {:induction false} TotalExtends(rows: Rows, m: nat, n: nat)
    requires m <= n && forall p :: p in rows ==> p < m
    ensures Total(rows, n) == Total(rows, m)
  {
    if m < n { TotalExtends(rows, m, n - 1); }
  }

  /** Nothing is recorded for a month to come, and only positive costs are about to be spent. */
  predicate Present(s: State) {
    (forall ph :: ph in s.calls ==> PresentPhase(ph, s.period)) &&
    forall p :: p in s.rows ==> p <= s.period
  }

  predicate PresentPhase(ph: Phase, now: nat) {
    (ph.Checking? || ph.Stopping? || ph.Spending? ==> ph.key <= now) && (ph.Spending? ==> ph.cost > 0)
  }

  lemma PresentKept(s: State, step: Step)
    requires Present(s) && Enabled(s, step)
    ensures Present(Next(s, step))
  {
    var t := Next(s, step);
    forall ph | ph in t.calls ensures PresentPhase(ph, t.period) {
      var j :| 0 <= j < |t.calls| && t.calls[j] == ph;
      if j < |s.calls| { assert s.calls[j] in s.calls && PresentPhase(s.calls[j], s.period); }
    }
    if step.Check? || step.Stop? || step.Spend? {
      assert s.calls[step.i] in s.calls && PresentPhase(s.calls[step.i], s.period);
    }
  }

  predicate Balanced(s: State) {
    Total(s.rows, s.period + 1) + Sum(Owed, s.calls) == Charged(s.events)
  }

  lemma BalanceKept(s: State, step: Step)
    requires Present(s) && Balanced(s) && Enabled(s, step)
    ensures Balanced(Next(s, step))
  {
    hide Total, Sum, Charged;
    var t := Next(s, step);
    if step.Begin? {
      SumSnoc(Owed, s.calls, Started(step.cost));
    } else if step.Rollover? {
      TotalExtends(s.rows, s.period + 1, t.period + 1);
    } else {
      var ph := s.calls[step.i];
      SumMove(Owed, s.calls, step.i, t.calls[step.i]);
      assert ph in s.calls && PresentPhase(ph, s.period);
      if step.Check? || step.Stop? || step.Spend? {
        var key: nat := ph.key;
        TotalUpdate(s.rows, key, t.rows[key], s.period + 1);
        assert t.rows == s.rows[key := t.rows[key]] && key <= s.period;
      } else if step.Log? {
        ChargedSnoc(s.events, ph.cost);
      }
    }
  }

  lemma {:induction false} BalanceOverRuns(s: State, steps: seq<Step>)
    requires Present(s) && Balanced(s) && Runs(s, steps)
    ensures Balanced(After(s, steps))
    decreases |steps|
  {
    hide Present, Balanced, Enabled, Next;
    if steps != [] {
      PresentKept(s, steps[0]);
      BalanceKept(s, steps[0]);
      BalanceOverRuns(Next(s, steps[0]), steps[1..]);
    }
  }

  /**
   * Conservation over every run, months rolling over and requests dying included:
   * what all rows say was spent, plus what is written but not yet (or never)
   * incremented, is what the usage events charge.
   */
  lemma SpendIsConserved(steps: seq<Step>)
    requires Runs(INITIAL, steps)
    ensures var t := After(INITIAL, steps);
      Total(t.rows, t.period + 1) + Sum(Owed, t.calls) == Charged(t.events)
  {
    hide Runs, After;
    assert Total(INITIAL.rows, 1) == 0;
    BalanceOverRuns(INITIAL, steps);
  }

  // ------------------------------------------------------------------ what a check says

  /**
   * A check in numbers: the call goes on exactly if the month is not stopped and its
   * spend with this cost stays within the budget; if it does not go on, the month is
   * stopped, now or by the call's next step, and nothing is charged.
   */
  lemma CheckExactly(s: State, i: nat)
    requires Enabled(s, Check(i))
    ensures var Checking(cost, budget, key) := s.calls[i];
      var row := if key in s.rows then s.rows[key] else Row(0, false);
      var t := Next(s, Check(i));
      && t.events == s.events && t.rows == s.rows[key := row]
      && (t.calls[i] == Passed(cost) <==> !row.stopped && row.spent + cost <= budget)
      && (row.stopped ==> t.calls[i] == Refused)
      && (!row.stopped && row.spent + cost > budget ==>
            t.calls[i] == Stopping(key) && Next(t, Stop(i)).calls[i] == Refused &&
            Next(t, Stop(i)).rows == s.rows[key := Row(row.spent, true)] && Next(t, Stop(i)).events == s.events)
  {
  }
}
