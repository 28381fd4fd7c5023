/** Which text ends up in the index: the stored one, or its redaction when redaction is switched on. */
module IngestText {
  import opened Text
  import opened Chunking
  import opened Pricing
  import opened Ingest

  /** Attempts one after the other, each on the text it finds in storage. */
  function Runs(env: Env, db: Database, job: Job, stored: seq<string>, faults: seq<Fault>): Database
    requires |stored| == |faults|
    decreases |faults|
  {
    if faults == [] then db
    else
      var n := |faults| - 1;
      IngestStored(env, Runs(env, db, job, stored[..n], faults[..n]), job, stored[n], faults[n]).1
  }

  // ---------------------------------------------------------- when an attempt completes

  lemma {:induction false} InsertsLength(env: Env, job: Job, batch: seq<TextChunk>)
    ensures |Inserts(env, job, batch)| == |batch|
  {
    hide RowFor;
    if batch != [] { InsertsLength(env, job, batch[1..]); }
  }

  lemma {:induction false} BatchesLength(env: Env, job: Job, cs: seq<TextChunk>, i: nat)
    requires i <= |cs|
    ensures |Batches(env, job, cs, i)| == |cs| - i + 2 * ((|cs| - i + 31) / 32)
    decreases |cs| - i
  {
    hide BatchEvent, RowFor, Inserts;
    if i < |cs| {
      InsertsLength(env, job, cs[i..BatchEnd(cs, i)]);
      BatchesLength(env, job, cs, BatchEnd(cs, i));
    }
  }

  /** The statements of an undisturbed attempt on `n` chunks: seven, one for each chunk and two for each 32 of them. */
  function Statements(n: nat): nat {
    7 + n + 2 * ((n + 31) / 32)
  }

  lemma PlanLength(env: Env, job: Job, cs: seq<TextChunk>)
    ensures 3 + |Body(env, job, cs)| == Statements(|cs|)
  {
    hide Batches;
    BatchesLength(env, job, cs, 0);
  }

  // ------------------------------------------------------------------- what is indexed

  /**
   * With redaction on: however earlier attempts broke off, one in which as many
   * statements succeed as there are completes, and the document then has exactly
   * the rows of the chunks of the redacted text.
   */
  lemma RedactedTextIsIndexed(env: Env, db: Database, job: Job, stored: string, before: seq<string>, faults: seq<Fault>,
                              last: Fault)
    requires Ready(db, job) && env.piiRedactionEnabled && |before| == |faults|
    ensures var n := |ChunkText(env.redact(stored), 1200, 150)|;
      var (r, t) := IngestStored(env, Runs(env, db, job, before, faults), job, stored, last);
      if last.at < Statements(n) then r == Stopped
      else r.Completed? && r.chunkCount == n && IndexedAs(env, t.chunks, job, env.redact(stored)) && Indexed(job, db, t)
  {
    LastAttempt(env, db, job, stored, before, faults, last);
  }

  /** With redaction off it is the stored text itself. */
  lemma PlainTextIsIndexed(env: Env, db: Database, job: Job, stored: string, before: seq<string>, faults: seq<Fault>,
                           last: Fault)
    requires Ready(db, job) && !env.piiRedactionEnabled && |before| == |faults|
    ensures var n := |ChunkText(stored, 1200, 150)|;
      var (r, t) := IngestStored(env, Runs(env, db, job, before, faults), job, stored, last);
      if last.at < Statements(n) then r == Stopped
      else r.Completed? && r.chunkCount == n && IndexedAs(env, t.chunks, job, stored) && Indexed(job, db, t)
  {
    LastAttempt(env, db, job, stored, before, faults, last);
  }

  /** Success as the rest of the system sees it. */
  ghost predicate Indexed(job: Job, before: Database, after: Database) {
    Succeeded(job, after) && OthersKept(job.documentId, before.chunks, after.chunks) && Touches(job, before, after) &&
    after.clashed == before.clashed
  }

  /** What any attempts leave, whatever text each of them found. */
  ghost predicate Kept(job: Job, before: Database, after: Database) {
    Ready(after, job) && Touches(job, before, after) && OthersKept(job.documentId, before.chunks, after.chunks) &&
    after.clashed == before.clashed
  }

  lemma KeptTrans(job: Job, a: Database, b: Database, c: Database)
    requires Kept(job, a, b) && Kept(job, b, c)
    ensures Kept(job, a, c)
  {
    hide Ready;
  }

  lemma {:induction false} RunsKeep(env: Env, db: Database, job: Job, stored: seq<string>, faults: seq<Fault>)
    requires Ready(db, job) && |stored| == |faults|
    ensures Kept(job, db, Runs(env, db, job, stored, faults))
    decreases |faults|
  {
    hide Attempt, Ready, Chunks, Touches, OthersKept, Holds;
    if faults == [] {
      TouchesNothing(job, db);
    } else {
      var n := |faults| - 1;
      var t := Runs(env, db, job, stored[..n], faults[..n]);
      RunsKeep(env, db, job, stored[..n], faults[..n]);
      ChunksAreNumbered(env, stored[n]);
      AttemptLeaves(env, t, job, Chunks(env, stored[n]), faults[n]);
      KeptTrans(job, db, t, Runs(env, db, job, stored, faults));
    }
  }

  lemma ChunkCount(env: Env, stored: string)
    ensures env.piiRedactionEnabled ==> |Chunks(env, stored)| == |ChunkText(env.redact(stored), 1200, 150)|
    ensures !env.piiRedactionEnabled ==> |Chunks(env, stored)| == |ChunkText(stored, 1200, 150)|
  {
    hide ChunkText;
  }

  lemma LastAttempt(env: Env, db: Database, job: Job, stored: string, before: seq<string>, faults: seq<Fault>, last: Fault)
    requires Ready(db, job) && |before| == |faults|
    ensures var n := |ChunkText(if env.piiRedactionEnabled then env.redact(stored) else stored, 1200, 150)|;
      var (r, t) := IngestStored(env, Runs(env, db, job, before, faults), job, stored, last);
      if last.at < Statements(n) then r == Stopped
      else
        && r.Completed? && r.chunkCount == n && Indexed(job, db, t)
        && IndexedAs(env, t.chunks, job, if env.piiRedactionEnabled then env.redact(stored) else stored)
  {
    hide Attempt, Ready, Chunks, ChunkText, Touches, OthersKept, Holds, Body, TotalCost, IndexedAs, Runs, Succeeded, Statements;
    var t := Runs(env, db, job, before, faults);
    var cs := Chunks(env, stored);
    RunsKeep(env, db, job, before, faults);
    ChunksAreNumbered(env, stored);
    ChunkCount(env, stored);
    AttemptLeaves(env, t, job, cs, last);
    PlanLength(env, job, cs);
    CompletedIsIndexed(env, t, job, stored, last);
    KeptTrans(job, db, t, IngestStored(env, t, job, stored, last).1);
  }

  // ------------------------------------------------------------- nothing else is ever stored

  /** The rows are the old ones, or those of an initial part of the chunks of a redacted text. */
  ghost predicate OnlyRedacted(env: Env, before: Database, job: Job, stored: seq<string>, after: Database) {
    after.chunks == before.chunks
    || exists k, m: nat :: 0 <= k < |stored| && RowsAre(env, after.chunks, job, env.redact(stored[k]), m)
  }

  /** With redaction on, no attempt, however it breaks off, leaves a row that was not made from redacted text. */
  lemma {:induction false} OnlyRedactedTextIsStored(env: Env, db: Database, job: Job, stored: seq<string>,
                                                    faults: seq<Fault>)
    requires Ready(db, job) && env.piiRedactionEnabled && |stored| == |faults|
    ensures OnlyRedacted(env, db, job, stored, Runs(env, db, job, stored, faults))
    decreases |faults|
  {
    hide Attempt, Ready, Chunks, Touches, OthersKept, Holds, RowsAre;
    if faults != [] {
      var n := |faults| - 1;
      var t := Runs(env, db, job, stored[..n], faults[..n]);
      var cs := Chunks(env, stored[n]);
      OnlyRedactedTextIsStored(env, db, job, stored[..n], faults[..n]);
      RunsKeep(env, db, job, stored[..n], faults[..n]);
      ChunksAreNumbered(env, stored[n]);
      AttemptLeaves(env, t, job, cs, faults[n]);
      var u := Runs(env, db, job, stored, faults);
      if u.chunks == t.chunks {
        if t.chunks != db.chunks {
          var k, m: nat :| 0 <= k < n && RowsAre(env, t.chunks, job, env.redact(stored[..n][k]), m);
          assert RowsAre(env, u.chunks, job, env.redact(stored[k]), m);
        }
      } else {
        var m: nat :| m <= |cs| && Holds(env, u.chunks, job, cs, m);
        HeldRowsAre(env, u.chunks, job, stored[n], m);
      }
    }
  }

  /** What redaction removes leaves no trace: texts with equal redactions give equal outcomes and databases. */
  lemma EqualRedactionsAreIndistinguishable(env: Env, db: Database, job: Job, a: string, b: string, fault: Fault)
    requires env.piiRedactionEnabled && env.redact(a) == env.redact(b)
    ensures IngestStored(env, db, job, a, fault) == IngestStored(env, db, job, b, fault)
  {
    hide Attempt, ChunkText;
  }

  /** And so over any attempts, whatever text each of them finds. */
  lemma {:induction false} RedactedRunsAreEqual(env: Env, db: Database, job: Job, a: seq<string>, b: seq<string>,
                                                faults: seq<Fault>)
    requires env.piiRedactionEnabled && |a| == |b| == |faults|
    requires forall k :: 0 <= k < |a| ==> env.redact(a[k]) == env.redact(b[k])
    ensures Runs(env, db, job, a, faults) == Runs(env, db, job, b, faults)
    decreases |faults|
  {
    hide IngestStored;
    if faults != [] {
      var n := |faults| - 1;
      RedactedRunsAreEqual(env, db, job, a[..n], b[..n], faults[..n]);
      EqualRedactionsAreIndistinguishable(env, Runs(env, db, job, a[..n], faults[..n]), job, a[n], b[n], faults[n]);
    }
  }

  // ------------------------------------------------------------------------ what is billed

  /** One event for each slice of the chunks. */
  function Bill(env: Env, job: Job, slices: seq<seq<TextChunk>>): seq<Event> {
    if slices == [] then [] else [BatchEvent(env, job, slices[0])] + Bill(env, job, slices[1..])
  }

  lemma {:induction false} InsertsLogNothing(env: Env, db: Database, job: Job, batch: seq<TextChunk>, n: nat)
    ensures Exec(db, Inserts(env, job, batch), n).events == db.events
    decreases |batch|
  {
    hide Exec, Inserts, RowFor;
    if batch == [] {
      NoInserts(db, env, job, batch, n);
    } else {
      InsertStep(db, env, job, batch, n);
      if n > 0 {
        var e := Insert(Key(job.documentId, batch[0].index), RowFor(env, job.organizationId, batch[0]));
        InsertsLogNothing(env, Apply(db, e), job, batch[1..], n - 1);
      }
    }
  }

  lemma {:induction false} BatchesLog(env: Env, db: Database, job: Job, cs: seq<TextChunk>, i: nat, n: nat)
    requires i <= |cs| && n >= |Batches(env, job, cs, i)|
    ensures Exec(db, Batches(env, job, cs, i), n).events == db.events + Bill(env, job, Slices(cs, i))
    decreases |cs| - i
  {
    hide Exec, Inserts, Batches, BatchEvent, TotalCost, EmbeddingCostMicros;
    if i == |cs| {
      NoBatches(db, env, job, cs, i, n);
    } else {
      var e := BatchEnd(cs, i);
      var batch := cs[i..e];
      var inserts := Inserts(env, job, batch);
      BatchStep(db, env, job, cs, i, n);
      InsertsLogNothing(env, db, job, batch, n - 1);
      var inserted := Exec(db, inserts, n - 1);
      var event := BatchEvent(env, job, batch);
      BatchesLog(env, Apply(inserted, Log(event)), job, cs, e, n - 2 - |inserts|);
      assert Slices(cs, i)[1..] == Slices(cs, e);
      Assoc(db.events, [event], Bill(env, job, Slices(cs, e)));
    }
  }

  lemma StartAndFinishLogNothing(db: Database, job: Job, n: nat)
    ensures Exec(db, Start(job), 3).events == db.events && Exec(db, Finish(job), n).events == db.events
  {
    hide Exec;
    StartRuns(db, job, 3);
    FinishRuns(db, job, n);
  }

  lemma DeletionLogsNothing(db: Database, job: Job)
    ensures Apply(db, DeleteChunks(job.organizationId, job.documentId)).events == db.events
  {
  }

  lemma BodyLogs(env: Env, db: Database, job: Job, cs: seq<TextChunk>, n: nat)
    requires n >= |Body(env, job, cs)|
    ensures Exec(db, Body(env, job, cs), n).events == db.events + Bill(env, job, Slices(cs, 0))
  {
    hide Exec, Apply, Batches, Body, Start, Finish, Slices, Bill;
    BodyRuns(db, env, job, cs, n);
    var d := Apply(db, DeleteChunks(job.organizationId, job.documentId));
    var bs := Batches(env, job, cs, 0);
    DeletionLogsNothing(db, job);
    BatchesLog(env, d, job, cs, 0, n - 2);
    StartAndFinishLogNothing(Exec(d, bs, n - 2), job, n - 2 - |bs|);
  }

  lemma CompletedLogs(env: Env, db: Database, job: Job, cs: seq<TextChunk>, fault: Fault)
    requires Attempt(env, db, job, cs, fault).0.Completed?
    ensures Attempt(env, db, job, cs, fault).1.events == db.events + Bill(env, job, Slices(cs, 0))
  {
    hide Exec, Body, TotalCost, Start, Slices, Bill;
    StartAndFinishLogNothing(db, job, 0);
    BodyLogs(env, Exec(db, Start(job), 3), job, cs, fault.at - 3);
  }

  /** The prompt tokens and the costs of usage events, added up. */
  function Billed(events: seq<Event>): (nat, nat) {
    if events == [] then (0, 0)
    else var (t, c) := Billed(events[1..]); (events[0].promptTokens + t, events[0].costMicros + c)
  }

  lemma {:induction false} BillAddsUp(env: Env, job: Job, cs: seq<TextChunk>, i: nat)
    requires i <= |cs|
    ensures Billed(Bill(env, job, Slices(cs, i))) == (Tokens(env, cs[i..]), TotalCost(env, cs, i))
    decreases |cs| - i
  {
    hide Tokens, EmbeddingCostMicros;
    if i == |cs| {
      NoTokens(env, cs[i..]);
    } else {
      var e := BatchEnd(cs, i);
      BillAddsUp(env, job, cs, e);
      assert Slices(cs, i)[1..] == Slices(cs, e);
      assert Bill(env, job, Slices(cs, i))[1..] == Bill(env, job, Slices(cs, e));
      TokensAppend(env, cs[i..e], cs[e..]);
      assert cs[i..e] + cs[e..] == cs[i..];
    }
  }

  lemma NoTokens(env: Env, cs: seq<TextChunk>)
    requires cs == []
    ensures Tokens(env, cs) == 0
  {
  }

  /**
   * A completed attempt logs one event for each 32 chunks; together they bill the
   * tokens of all chunks, and the cost the attempt returns.
   */
  lemma CompletedIsBilled(env: Env, db: Database, job: Job, stored: string, fault: Fault)
    requires IngestStored(env, db, job, stored, fault).0.Completed?
    ensures var cs := ChunkText(if env.piiRedactionEnabled then env.redact(stored) else stored, 1200, 150);
      var (r, t) := IngestStored(env, db, job, stored, fault);
      && |t.events| == |db.events| + (|cs| + 31) / 32 && db.events <= t.events
      && Billed(t.events[|db.events|..]) == (Tokens(env, cs), r.costMicros)
      && forall k :: |db.events| <= k < |t.events| ==> t.events[k].organizationId == job.organizationId
  {
    hide Attempt, ChunkText, Bill, Billed, Slices, TotalCost, Tokens;
    var cs := Chunks(env, stored);
    CompletedLogs(env, db, job, cs, fault);
    CompletedCost(env, db, job, cs, fault);
    BatchesFlatten(cs, 0);
    BillAddsUp(env, job, cs, 0);
    assert cs[0..] == cs;
    BillShape(env, job, Slices(cs, 0));
    var bill := Bill(env, job, Slices(cs, 0));
    assert (db.events + bill)[|db.events|..] == bill;
  }

  lemma CompletedCost(env: Env, db: Database, job: Job, cs: seq<TextChunk>, fault: Fault)
    requires Attempt(env, db, job, cs, fault).0.Completed?
    ensures Attempt(env, db, job, cs, fault).0.costMicros == TotalCost(env, cs, 0)
  {
    hide Exec, Body, TotalCost;
  }

  lemma {:induction false} BillShape(env: Env, job: Job, slices: seq<seq<TextChunk>>)
    ensures |Bill(env, job, slices)| == |slices|
    ensures forall e :: e in Bill(env, job, slices) ==> e.organizationId == job.organizationId
  {
    hide Tokens, EmbeddingCostMicros;
    if slices != [] { BillShape(env, job, slices[1..]); }
  }

  // ------------------------------------------------------------------------ strangers

  /** A document that is missing, of another organization, or without a source is left alone, and so is everything else. */
  lemma MissingDocumentIsLeft(env: Env, db: Database, job: Job, stored: string, fault: Fault)
    requires job.documentId !in db.docs || db.docs[job.documentId].organizationId != job.organizationId ||
      db.docs[job.documentId].sourceUri in {None, Some("")}
    ensures IngestStored(env, db, job, stored, fault) == (Stopped, db)
  {
    hide Exec, Chunks, Body, Start, Handler;
  }

  /** A plan that deletes rows of this organization only. */
  ghost predicate DeletesOwn(job: Job, plan: seq<Effect>) {
    forall e :: e in plan && e.DeleteChunks? ==> e.organizationId == job.organizationId
  }

  lemma {:induction false} PlanKeepsForeign(db: Database, job: Job, plan: seq<Effect>, n: nat, k: Key)
    requires DeletesOwn(job, plan) && k in db.chunks && db.chunks[k].organizationId != job.organizationId
    ensures var t := Exec(db, plan, n);
      k in t.chunks && t.chunks[k] == db.chunks[k]
    decreases n
  {
    if n > 0 && plan != [] {
      assert plan[0] in plan;
      PlanKeepsForeign(Apply(db, plan[0]), job, plan[1..], n - 1, k);
    }
  }

  lemma {:induction false} InsertsDeleteNothing(env: Env, job: Job, batch: seq<TextChunk>)
    ensures forall e :: e in Inserts(env, job, batch) ==> !e.DeleteChunks?
  {
    hide RowFor;
    if batch != [] { InsertsDeleteNothing(env, job, batch[1..]); }
  }

  lemma {:induction false} BatchesDeleteNothing(env: Env, job: Job, cs: seq<TextChunk>, i: nat)
    ensures forall e :: e in Batches(env, job, cs, i) ==> !e.DeleteChunks?
    decreases |cs| - i
  {
    hide Inserts, BatchEvent;
    if i < |cs| {
      InsertsDeleteNothing(env, job, cs[i..BatchEnd(cs, i)]);
      BatchesDeleteNothing(env, job, cs, BatchEnd(cs, i));
    }
  }

  lemma PlansDeleteOwn(env: Env, job: Job, cs: seq<TextChunk>, message: string)
    ensures DeletesOwn(job, Start(job)) && DeletesOwn(job, Body(env, job, cs)) && DeletesOwn(job, Handler(job, message))
  {
    hide Batches;
    BatchesDeleteNothing(env, job, cs, 0);
  }

  /** No attempt, in whatever state it finds the tables, touches a row of another organization. */
  lemma ForeignRowsStay(env: Env, db: Database, job: Job, stored: string, fault: Fault, k: Key)
    requires k in db.chunks && db.chunks[k].organizationId != job.organizationId
    ensures var t := IngestStored(env, db, job, stored, fault).1;
      k in t.chunks && t.chunks[k] == db.chunks[k]
  {
    hide Exec, Chunks, Body, Start, Handler, DeletesOwn, TotalCost;
    var cs := Chunks(env, stored);
    PlansDeleteOwn(env, job, cs, fault.message);
    var started := Exec(db, Start(job), Started(db, job, fault));
    PlanKeepsForeign(db, job, Start(job), Started(db, job, fault), k);
    if fault.at >= 3 {
      var worked := Exec(started, Body(env, job, cs), fault.at - 3);
      PlanKeepsForeign(started, job, Body(env, job, cs), fault.at - 3, k);
      PlanKeepsForeign(worked, job, Handler(job, fault.message), fault.handled, k);
    }
  }

  // ------------------------------------------------------------------------ attempts

  /** A plan that starts no job. */
  ghost predicate StartsNothing(plan: seq<Effect>) {
    forall e :: e in plan ==> !e.StartJob?
  }

  lemma {:induction false} KeepsAttempts(db: Database, plan: seq<Effect>, n: nat, id: Id)
    requires StartsNothing(plan) && id in db.jobs
    ensures var t := Exec(db, plan, n);
      id in t.jobs && t.jobs[id].attempts == db.jobs[id].attempts
    decreases n
  {
    if n > 0 && plan != [] {
      assert plan[0] in plan;
      KeepsAttempts(Apply(db, plan[0]), plan[1..], n - 1, id);
    }
  }

  lemma {:induction false} InsertsStartNothing(env: Env, job: Job, batch: seq<TextChunk>)
    ensures StartsNothing(Inserts(env, job, batch))
  {
    hide RowFor;
    if batch != [] { InsertsStartNothing(env, job, batch[1..]); }
  }

  lemma {:induction false} BatchesStartNothing(env: Env, job: Job, cs: seq<TextChunk>, i: nat)
    ensures StartsNothing(Batches(env, job, cs, i))
    decreases |cs| - i
  {
    hide Inserts, BatchEvent;
    if i < |cs| {
      InsertsStartNothing(env, job, cs[i..BatchEnd(cs, i)]);
      BatchesStartNothing(env, job, cs, BatchEnd(cs, i));
    }
  }

  lemma BodyStartsNothing(env: Env, job: Job, cs: seq<TextChunk>, message: string)
    ensures StartsNothing(Body(env, job, cs)) && StartsNothing(Handler(job, message))
  {
    hide Batches;
    BatchesStartNothing(env, job, cs, 0);
  }

  lemma AttemptIsCounted(env: Env, db: Database, job: Job, cs: seq<TextChunk>, fault: Fault)
    requires Ready(db, job)
    ensures var t := Attempt(env, db, job, cs, fault).1;
      job.jobId in t.jobs &&
      t.jobs[job.jobId].attempts == db.jobs[job.jobId].attempts + if fault.at >= 3 then 1 else 0
  {
    hide Exec, Body, Handler, Start, TotalCost, Owned, StartsNothing;
    StartRuns(db, job, Started(db, job, fault));
    BodyStartsNothing(env, job, cs, fault.message);
    if fault.at >= 3 {
      var started := Exec(db, Start(job), 3);
      KeepsAttempts(started, Body(env, job, cs), fault.at - 3, job.jobId);
      KeepsAttempts(Exec(started, Body(env, job, cs), fault.at - 3), Handler(job, fault.message), fault.handled, job.jobId);
    }
  }

  /** How many attempts get past the statement that starts the job. */
  function Starts(faults: seq<Fault>): nat {
    if faults == [] then 0 else Starts(faults[..|faults| - 1]) + if faults[|faults| - 1].at >= 3 then 1 else 0
  }

  /** The job counts its attempts: one for each that got as far as starting it. */
  lemma {:induction false} AttemptsAreCounted(env: Env, db: Database, job: Job, stored: seq<string>, faults: seq<Fault>)
    requires Ready(db, job) && |stored| == |faults|
    ensures var t := Runs(env, db, job, stored, faults);
      job.jobId in t.jobs && t.jobs[job.jobId].attempts == db.jobs[job.jobId].attempts + Starts(faults)
    decreases |faults|
  {
    hide Attempt, Ready, Chunks;
    RunsKeep(env, db, job, stored, faults);
    ReadyHasJob(db, job);
    if faults != [] {
      var n := |faults| - 1;
      AttemptsAreCounted(env, db, job, stored[..n], faults[..n]);
      RunsKeep(env, db, job, stored[..n], faults[..n]);
      AttemptIsCounted(env, Runs(env, db, job, stored[..n], faults[..n]), job, Chunks(env, stored[n]), faults[n]);
    }
  }

  lemma ReadyHasJob(db: Database, job: Job)
    requires Ready(db, job)
    ensures job.jobId in db.jobs
  {
  }
}
