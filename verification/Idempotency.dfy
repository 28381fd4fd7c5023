/**
 * Idempotency keys: the first request with a key runs its handler and stores the
 * response; retries find the record. Requests interleave between their statements.
 */
module Idempotency {
  import opened Text

  /** The unique key of a record: organization and trimmed header. */
  datatype Slot = Slot(organizationId: string, key: string)

  datatype Response = Response(status: int, body: Option<string>)

  /** In progress until a response is stored. */
  datatype Record = Record(requestHash: string, response: Option<Response>)

  datatype Verdict = Conflict | Replay(response: Response) | Pass | Fresh

  /** What the look-up decides: only a stored response with a body is replayed. */
  function Judge(records: map<Slot, Record>, slot: Slot, hash: string): Verdict {
    if slot !in records then Fresh
    else if records[slot].requestHash != hash then Conflict
    else if records[slot].response.Some? && records[slot].response.value.body.Some? then
      Replay(records[slot].response.value)
    else Pass
  }

  function Stored(records: map<Slot, Record>, slot: Slot, response: Response): map<Slot, Record> {
    if slot in records && records[slot].response.None?
    then records[slot := records[slot].(response := Some(response))] else records
  }

  class Plugin {
    var records: map<Slot, Record>

    constructor ()
      ensures records == map[]
    {
      records := map[];
    }

    /** Before the handler, nothing else going on: look up, and create the record if there is none. */
    method PreHandler(slot: Slot, hash: string) returns (verdict: Verdict)
      modifies this
      ensures verdict == Judge(old(records), slot, hash)
      ensures records == if verdict.Fresh? then old(records)[slot := Record(hash, None)] else old(records)
    {
      if slot in records {
        var existing := records[slot];
        if existing.requestHash != hash { return Conflict; }
        if existing.response.Some? && existing.response.value.body.Some? { return Replay(existing.response.value); }
        return Pass;
      }
      records := records[slot := Record(hash, None)];
      return Fresh;
    }

    /** When the reply is sent: complete the record if it is still in progress. */
    method OnSend(slot: Slot, response: Response)
      modifies this
      ensures records == Stored(old(records), slot, response)
    {
      if slot in records && records[slot].response.None? {
        records := records[slot := records[slot].(response := Some(response))];
      }
    }
  }

  // ------------------------------------------------------------------ interleaving

  datatype Phase = Arrived | Creating | Handling | Storing | Done(reply: Option<Response>)

  /** `created` says that the request made the record, `answer` what its handler replied. */
  datatype Request = Request(slot: Slot, hash: string, phase: Phase, created: bool, answer: Option<Response>)

  /** `handled` counts the handler runs of each slot, by listing them. */
  datatype State = State(records: map<Slot, Record>, requests: seq<Request>, handled: seq<Slot>)

  datatype Step =
    | Arrive(slot: Slot, hash: string)
    | LookUp(i: nat)
    | Create(i: nat)
    | Answer(i: nat, response: Response)
    | Store(i: nat, kept: bool)

  predicate Enabled(s: State, step: Step) {
    match step
    case Arrive(_, _) => true
    case LookUp(i) => i < |s.requests| && s.requests[i].phase.Arrived?
    case Create(i) => i < |s.requests| && s.requests[i].phase.Creating?
    case Answer(i, _) => i < |s.requests| && s.requests[i].phase.Handling?
    case Store(i, _) => i < |s.requests| && s.requests[i].phase.Storing? && s.requests[i].answer.Some?
  }

  function Move(s: State, i: nat, r: Request): State
    requires i < |s.requests|
  {
    s.(requests := s.requests[i := r])
  }

  function Next(s: State, step: Step): State
    requires Enabled(s, step)
  {
    match step
    case Arrive(slot, hash) => s.(requests := s.requests + [Request(slot, hash, Arrived, false, None)])
    case LookUp(i) =>
      var r := s.requests[i];
      (match Judge(s.records, r.slot, r.hash)
       case Conflict => Move(s, i, r.(phase := Done(None)))
       case Replay(response) => Move(s, i, r.(phase := Done(Some(response))))
       case Pass => Move(s, i, r.(phase := Handling)).(handled := s.handled + [r.slot])
       case Fresh => Move(s, i, r.(phase := Creating)))
    case Create(i) =>
      var r := s.requests[i];
      if r.slot in s.records then Move(s, i, r.(phase := Done(None)))
      else Move(s, i, r.(phase := Handling, created := true))
             .(records := s.records[r.slot := Record(r.hash, None)], handled := s.handled + [r.slot])
    case Answer(i, response) =>
      var r := s.requests[i];
      Move(s, i, r.(answer := Some(response), phase := if r.created then Storing else Done(Some(response))))
    case Store(i, kept) =>
      var r := s.requests[i];
      var t := Move(s, i, r.(phase := Done(r.answer)));
      if kept then t.(records := Stored(s.records, r.slot, r.answer.value)) else t
  }

  predicate Runs(s: State, steps: seq<Step>)
    decreases |steps|
  {
    steps == [] || (Enabled(s, steps[0]) && Runs(Next(s, steps[0]), steps[1..]))
  }

  function After(s: State, steps: seq<Step>): State
    requires Runs(s, steps)
    decreases |steps|
  {
    if steps == [] then s else After(Next(s, steps[0]), steps[1..])
  }

  const INITIAL := State(map[], [], [])

  // ------------------------------------------------------------------------ records

  /** A record keeps its request hash, and once completed it never changes. */
  predicate Persists(before: map<Slot, Record>, after: map<Slot, Record>) {
    forall slot :: slot in before ==>
      slot in after && after[slot].requestHash == before[slot].requestHash &&
      (before[slot].response.Some? ==> after[slot] == before[slot])
  }

  lemma {:induction false} RecordsPersist(s: State, steps: seq<Step>)
    requires Runs(s, steps)
    ensures Persists(s.records, After(s, steps).records)
    decreases |steps|
  {
    if steps != [] {
      assert Persists(s.records, Next(s, steps[0]).records);
      RecordsPersist(Next(s, steps[0]), steps[1..]);
    }
  }

  /** Request `i` created the record of its slot, and nobody else did. */
  predicate Creator(s: State, i: nat) {
    i < |s.requests| && s.requests[i].created && s.requests[i].slot in s.records &&
    var record := s.records[s.requests[i].slot];
    record.requestHash == s.requests[i].hash &&
    (record.response.Some? ==> record.response == s.requests[i].answer) &&
    (s.requests[i].phase.Handling? || s.requests[i].phase.Storing? ==> record.response.None?) &&
    forall j :: 0 <= j < |s.requests| && s.requests[j].created && s.requests[j].slot == s.requests[i].slot ==> j == i
  }

  predicate Sound(s: State) {
    (forall i :: 0 <= i < |s.requests| && s.requests[i].created ==> Creator(s, i)) &&
    (forall i :: 0 <= i < |s.requests| && s.requests[i].phase.Storing? ==> s.requests[i].created) &&
    (forall slot :: slot in s.records ==> Made(s, slot)) &&
    forall i :: 0 <= i < |s.requests| && (s.requests[i].phase.Arrived? || s.requests[i].phase.Creating?) ==>
      !s.requests[i].created && s.requests[i].answer.None?
  }

  predicate Made(s: State, slot: Slot) {
    exists i :: 0 <= i < |s.requests| && s.requests[i].created && s.requests[i].slot == slot
  }

  lemma MadeStays(s: State, step: Step, slot: Slot)
    requires Enabled(s, step) && Made(s, slot)
    ensures Made(Next(s, step), slot)
  {
    var i :| 0 <= i < |s.requests| && s.requests[i].created && s.requests[i].slot == slot;
    assert Next(s, step).requests[i].created && Next(s, step).requests[i].slot == slot;
  }

  lemma CreatorStays(s: State, step: Step, i: nat)
    requires Sound(s) && Enabled(s, step) && Creator(s, i)
    ensures Creator(Next(s, step), i)
  {
    hide Made;
    if step.Create? && s.requests[step.i].slot == s.requests[i].slot {
      assert s.requests[i].slot in s.records;
    }
    if step.Store? { assert s.requests[step.i].created; }
  }

  lemma SoundKept(s: State, step: Step)
    requires Sound(s) && Enabled(s, step)
    ensures Sound(Next(s, step))
  {
    hide Creator, Made;
    var t := Next(s, step);
    forall i | 0 <= i < |t.requests| && t.requests[i].created ensures Creator(t, i) {
      if i < |s.requests| && s.requests[i].created {
        CreatorStays(s, step, i);
      } else {
        NewCreator(s, step);
      }
    }
    forall slot | slot in t.records ensures Made(t, slot) {
      if slot in s.records { MadeStays(s, step, slot); } else { NewCreator(s, step); }
    }
  }

  /** The request whose create succeeds is the only one to have created its slot's record. */
  lemma NewCreator(s: State, step: Step)
    requires Sound(s) && Enabled(s, step) && step.Create? && s.requests[step.i].slot !in s.records
    ensures Creator(Next(s, step), step.i) && Made(Next(s, step), s.requests[step.i].slot)
  {
    var t := Next(s, step);
    assert t.requests[step.i].created;
    NoCreatorYet(s, s.requests[step.i].slot);
  }

  lemma NoCreatorYet(s: State, slot: Slot)
    requires Sound(s) && slot !in s.records
    ensures forall j :: 0 <= j < |s.requests| && s.requests[j].created ==> s.requests[j].slot != slot
  {
    forall j | 0 <= j < |s.requests| && s.requests[j].created ensures s.requests[j].slot != slot {
      assert Creator(s, j);
    }
  }

  lemma {:induction false} SoundAfter(s: State, steps: seq<Step>)
    requires Sound(s) && Runs(s, steps)
    ensures Sound(After(s, steps))
    decreases |steps|
  {
    hide Sound, Enabled, Next;
    if steps != [] {
      SoundKept(s, steps[0]);
      SoundAfter(Next(s, steps[0]), steps[1..]);
    }
  }

  /**
   * However requests interleave, every record was made by exactly one request, has
   * its hash, and if completed holds what that request's handler replied.
   */
  lemma RecordsAreTheCreators(steps: seq<Step>, slot: Slot) returns (i: nat)
    requires Runs(INITIAL, steps) && slot in After(INITIAL, steps).records
    ensures var t := After(INITIAL, steps); Creator(t, i) && t.requests[i].slot == slot
  {
    SoundAfter(INITIAL, steps);
    var t := After(INITIAL, steps);
    assert Made(t, slot);
    i :| 0 <= i < |t.requests| && t.requests[i].created && t.requests[i].slot == slot;
  }

  // ------------------------------------------------------------------ after completion

  /** A response with a body is stored. */
  predicate Replayable(records: map<Slot, Record>, slot: Slot) {
    slot in records && records[slot].response.Some? && records[slot].response.value.body.Some?
  }

  function Count(slots: seq<Slot>, slot: Slot): nat {
    if slots == [] then 0 else Count(slots[..|slots| - 1], slot) + if slots[|slots| - 1] == slot then 1 else 0
  }

  lemma CountSnoc(slots: seq<Slot>, slot: Slot, last: Slot)
    ensures Count(slots + [last], slot) == Count(slots, slot) + if last == slot then 1 else 0
  {
    assert (slots + [last])[..|slots|] == slots;
  }

  /**
   * Once a response with a body is stored, the handler never runs again for that
   * key, whoever was on the way, and every look-up replays the response or conflicts.
   */
  lemma {:induction false} CompletedKeysAreReplayed(s: State, steps: seq<Step>, slot: Slot)
    requires Runs(s, steps) && Replayable(s.records, slot)
    ensures var t := After(s, steps);
      Replayable(t.records, slot) && t.records[slot] == s.records[slot] && Count(t.handled, slot) == Count(s.handled, slot)
    ensures forall hash ::
      Judge(After(s, steps).records, slot, hash) ==
        (if hash == s.records[slot].requestHash then Replay(s.records[slot].response.value) else Conflict)
    decreases |steps|
  {
    hide Count;
    if steps != [] {
      var t := Next(s, steps[0]);
      if |t.handled| > |s.handled| { CountSnoc(s.handled, slot, t.handled[|s.handled|]); }
      CompletedKeysAreReplayed(t, steps[1..], slot);
    }
  }

  // -------------------------------------------------------------- and only then

  lemma OneStep(s: State, step: Step, rest: seq<Step>, t: State)
    requires Enabled(s, step) && Next(s, step) == t && Runs(t, rest)
    ensures Runs(s, [step] + rest) && After(s, [step] + rest) == After(t, rest)
  {
    hide Enabled, Next;
    assert ([step] + rest)[1..] == rest;
  }

  lemma {:induction false} RunsAppend(s: State, a: seq<Step>, b: seq<Step>)
    requires Runs(s, a) && Runs(After(s, a), b)
    ensures Runs(s, a + b) && After(s, a + b) == After(After(s, a), b)
    decreases |a|
  {
    hide Enabled, Next;
    if a == [] {
      assert a + b == b;
    } else {
      assert (a + b)[1..] == a[1..] + b;
      RunsAppend(Next(s, a[0]), a[1..], b);
    }
  }

  /** A retry with the same hash runs the handler if no response with a body is stored. */
  lemma RetryRuns(s: State, slot: Slot, hash: string)
    requires slot in s.records && s.records[slot].requestHash == hash && !Replayable(s.records, slot)
    ensures var steps := [Arrive(slot, hash)] + ([LookUp(|s.requests|)] + []);
      Runs(s, steps) && After(s, steps).handled == s.handled + [slot]
  {
    var i := |s.requests|;
    var t := Next(s, Arrive(slot, hash));
    var u := Next(t, LookUp(i));
    OneStep(t, LookUp(i), [], u);
    OneStep(s, Arrive(slot, hash), [LookUp(i)] + [], t);
  }

  /** Some continuation of the run executes the handler for `slot` once more. */
  ghost predicate CanRunAgain(s: State, slot: Slot) {
    exists steps :: RunsAgain(s, steps, slot)
  }

  predicate RunsAgain(s: State, steps: seq<Step>, slot: Slot) {
    Runs(s, steps) && Count(After(s, steps).handled, slot) > Count(s.handled, slot)
  }

  /**
   * The exact condition for at most one run: while there is a record, the handler can
   * still run again exactly as long as no response with a body is stored in it.
   */
  lemma HandlerCanRunAgainExactly(s: State, slot: Slot)
    requires slot in s.records
    ensures CanRunAgain(s, slot) <==> !Replayable(s.records, slot)
  {
    hide Count, Replayable, Runs, After;
    if Replayable(s.records, slot) {
      forall steps ensures !RunsAgain(s, steps, slot) {
        if Runs(s, steps) { CompletedKeysAreReplayed(s, steps, slot); }
      }
    } else {
      var hash := s.records[slot].requestHash;
      var steps := [Arrive(slot, hash)] + ([LookUp(|s.requests|)] + []);
      RetryRuns(s, slot, hash);
      CountSnoc(s.handled, slot, slot);
      assert RunsAgain(s, steps, slot);
    }
  }

  /** A first request up to its handler. */
  lemma FirstRuns(slot: Slot, hash: string)
    ensures var steps := [Arrive(slot, hash)] + ([LookUp(0)] + ([Create(0)] + []));
      Runs(INITIAL, steps) &&
      After(INITIAL, steps) == State(map[slot := Record(hash, None)], [Request(slot, hash, Handling, true, None)], [slot])
  {
    var a := Request(slot, hash, Arrived, false, None);
    var s1 := State(map[], [a], []);
    var s2 := State(map[], [a.(phase := Creating)], []);
    var s3 := State(map[slot := Record(hash, None)], [Request(slot, hash, Handling, true, None)], [slot]);
    OneStep(s2, Create(0), [], s3);
    OneStep(s1, LookUp(0), [Create(0)] + [], s2);
    OneStep(INITIAL, Arrive(slot, hash), [LookUp(0)] + ([Create(0)] + []), s1);
  }

  lemma TwoRuns(slot: Slot)
    ensures Count([slot] + [slot], slot) == 2
  {
    CountSnoc([], slot, slot);
    CountSnoc([slot], slot, slot);
    assert [] + [slot] == [slot];
  }

  /** So requests that overlap both run the handler: nothing waits for the first one. */
  lemma OverlapRunsTwice(slot: Slot, hash: string) returns (steps: seq<Step>)
    ensures Runs(INITIAL, steps) && Count(After(INITIAL, steps).handled, slot) == 2
  {
    hide Runs, After, Count;
    var first := [Arrive(slot, hash)] + ([LookUp(0)] + ([Create(0)] + []));
    FirstRuns(slot, hash);
    var s := After(INITIAL, first);
    RetryRuns(s, slot, hash);
    RunsAppend(INITIAL, first, [Arrive(slot, hash)] + ([LookUp(|s.requests|)] + []));
    steps := first + ([Arrive(slot, hash)] + ([LookUp(|s.requests|)] + []));
    TwoRuns(slot);
  }

  /** And a retry after a completed reply without a body runs it again, with no overlap at all. */
  lemma EmptyReplyRunsTwice(slot: Slot, hash: string, status: int) returns (steps: seq<Step>)
    ensures Runs(INITIAL, steps) && Count(After(INITIAL, steps).handled, slot) == 2
    ensures Store(0, true) in steps && After(INITIAL, steps).records == map[slot := Record(hash, Some(Response(status, None)))]
  {
    hide Runs, After, Count;
    var reply := Response(status, None);
    var first := [Arrive(slot, hash)] + ([LookUp(0)] + ([Create(0)] + []));
    FirstRuns(slot, hash);
    var s := After(INITIAL, first);
    var answered := Next(s, Answer(0, reply));
    var stored := Next(answered, Store(0, true));
    assert Runs(stored, []) && After(stored, []) == stored by { NothingRuns(stored); }
    OneStep(answered, Store(0, true), [], stored);
    OneStep(s, Answer(0, reply), [Store(0, true)] + [], answered);
    var finish := [Answer(0, reply)] + ([Store(0, true)] + []);
    var retry := [Arrive(slot, hash)] + ([LookUp(1)] + []);
    RetryRuns(stored, slot, hash);
    RetryKeepsRecords(stored, slot, hash);
    RunsAppend(s, finish, retry);
    RunsAppend(INITIAL, first, finish + retry);
    steps := first + (finish + retry);
    assert finish[1] == Store(0, true) && Store(0, true) in finish && Store(0, true) in finish + retry;
    TwoRuns(slot);
  }

  lemma NothingRuns(s: State)
    ensures Runs(s, []) && After(s, []) == s
  {
  }

  lemma RetryKeepsRecords(s: State, slot: Slot, hash: string)
    requires slot in s.records && s.records[slot].requestHash == hash && !Replayable(s.records, slot)
    ensures var steps := [Arrive(slot, hash)] + ([LookUp(|s.requests|)] + []);
      Runs(s, steps) && After(s, steps).records == s.records
  {
    var i := |s.requests|;
    var t := Next(s, Arrive(slot, hash));
    OneStep(t, LookUp(i), [], Next(t, LookUp(i)));
    OneStep(s, Arrive(slot, hash), [LookUp(i)] + [], t);
  }

  // ------------------------------------------------------------------- what is answered

  /** What a look-up does: refuse another body, replay a stored one, let a retry through, or go on to create. */
  lemma LookUpExactly(s: State, i: nat)
    requires Enabled(s, LookUp(i))
    ensures var r := s.requests[i];
      var t := Next(s, LookUp(i));
      var phase := t.requests[i].phase;
      && t.records == s.records
      && (phase == Creating <==> r.slot !in s.records)
      && (r.slot in s.records ==>
            var record := s.records[r.slot];
            && (phase == Done(None) <==> record.requestHash != r.hash)
            && (phase.Done? && phase.reply.Some? <==> record.requestHash == r.hash && Replayable(s.records, r.slot))
            && (phase.Done? && phase.reply.Some? ==> phase.reply == record.response)
            && (phase == Handling <==> record.requestHash == r.hash && !Replayable(s.records, r.slot)))
      && t.handled == s.handled + (if phase == Handling then [r.slot] else [])
  {
  }

  /** The request's handler runs or has run, so its body is the one on record; and its reply is its own or the stored one. */
  predicate Answered(s: State, r: Request) {
    && (r.phase.Handling? || r.phase.Storing? || r.answer.Some? ==>
          r.slot in s.records && s.records[r.slot].requestHash == r.hash)
    && (r.phase.Done? && r.phase.reply.Some? ==>
          r.phase.reply == r.answer ||
          (r.slot in s.records && s.records[r.slot].requestHash == r.hash && s.records[r.slot].response == r.phase.reply))
  }

  predicate AllAnswered(s: State) {
    forall i :: 0 <= i < |s.requests| ==> Answered(s, s.requests[i])
  }

  predicate Moves(step: Step, i: nat) {
    !step.Arrive? && step.i == i
  }

  lemma NextPersists(s: State, step: Step)
    requires Enabled(s, step)
    ensures Persists(s.records, Next(s, step).records)
    ensures forall i: nat :: i < |s.requests| && !Moves(step, i) ==> Next(s, step).requests[i] == s.requests[i]
  {
  }

  lemma StillAnswered(s: State, t: State, r: Request)
    requires Persists(s.records, t.records) && Answered(s, r)
    ensures Answered(t, r)
  {
  }

  lemma AnsweredStep(s: State, step: Step, i: nat)
    requires Enabled(s, step) && i < |s.requests| && Answered(s, s.requests[i])
    ensures Answered(Next(s, step), Next(s, step).requests[i])
  {
    hide Next, Answered, Persists;
    NextPersists(s, step);
    StillAnswered(s, Next(s, step), s.requests[i]);
    if Moves(step, i) { OwnStep(s, step); }
  }

  lemma OwnStep(s: State, step: Step)
    requires Enabled(s, step) && !step.Arrive? && Answered(s, s.requests[step.i])
    ensures Answered(Next(s, step), Next(s, step).requests[step.i])
  {
  }

  lemma AnsweredKept(s: State, step: Step)
    requires AllAnswered(s) && Enabled(s, step)
    ensures AllAnswered(Next(s, step))
  {
    hide Answered, Next, Enabled;
    var t := Next(s, step);
    NewIsAnswered(s, step);
    forall i | 0 <= i < |t.requests| ensures Answered(t, t.requests[i]) {
      if i < |s.requests| { AnsweredStep(s, step, i); }
    }
  }

  lemma NewIsAnswered(s: State, step: Step)
    requires Enabled(s, step)
    ensures var t := Next(s, step);
      |s.requests| <= |t.requests| <= |s.requests| + 1 &&
      (|t.requests| > |s.requests| ==> Answered(t, t.requests[|s.requests|]))
  {
  }

  lemma {:induction false} AnsweredAfter(s: State, steps: seq<Step>)
    requires AllAnswered(s) && Runs(s, steps)
    ensures AllAnswered(After(s, steps))
    decreases |steps|
  {
    hide AllAnswered, Enabled, Next;
    if steps != [] {
      AnsweredKept(s, steps[0]);
      AnsweredAfter(Next(s, steps[0]), steps[1..]);
    }
  }

  /**
   * However requests interleave, a handler runs only for the body on record, and
   * every request is answered by its own handler or with what is stored for the
   * very same body.
   */
  lemma RepliesBelongToTheBody(steps: seq<Step>, i: nat)
    requires Runs(INITIAL, steps) && i < |After(INITIAL, steps).requests|
    ensures var t := After(INITIAL, steps); Answered(t, t.requests[i])
  {
    hide Answered;
    AnsweredAfter(INITIAL, steps);
  }
}
