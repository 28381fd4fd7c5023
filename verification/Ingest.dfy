/**
 * Ingestion of one document: load, redact, chunk, embed in batches, store, and
 * record how it went; with attempts that fail or crash at any statement.
 */
module Ingest {
  import opened Text
  import opened Chunking
  import opened Pricing

  type Id = string

  datatype DocStatus = PENDING | PROCESSING | INDEXED | FAILED

  datatype JobStatus = QUEUED | RUNNING | COMPLETED | FAILED

  datatype Doc = Doc(organizationId: Id, sourceUri: Option<string>, status: DocStatus, error: Option<string>)

  datatype JobRow = JobRow(status: JobStatus, attempts: nat, error: Option<string>)

  /** The unique key of a chunk row: document and index. */
  datatype Key = Key(documentId: Id, index: nat)

  datatype Row = Row(organizationId: Id, content: string, tokenCount: nat, embedding: string, model: string)

  datatype Event = Event(organizationId: Id, promptTokens: nat, costMicros: nat)

  /** `clashed` records that an insert met a row with its key. */
  datatype Database = Database(docs: map<Id, Doc>, jobs: map<Id, JobRow>, chunks: map<Key, Row>,
                               events: seq<Event>, clashed: bool)

  datatype Job = Job(organizationId: Id, documentId: Id, jobId: Id)

  /** Redaction and the embedding provider, which embeds each text and counts its tokens. */
  datatype Env = Env(redact: string -> string, piiRedactionEnabled: bool,
                     embed: string -> string, tokens: string -> nat, model: string)

  const BATCH := 32

  // ---------------------------------------------------------------- statements

  /** What one awaited call does to the database. */
  datatype Effect =
    | Read
    | SetDoc(id: Id, docStatus: DocStatus, error: Option<string>)
    | StartJob(id: Id)
    | SetJob(id: Id, jobStatus: JobStatus, error: Option<string>)
    | DeleteChunks(organizationId: Id, documentId: Id)
    | Insert(key: Key, row: Row)
    | Log(event: Event)

  function Apply(db: Database, e: Effect): Database {
    match e
    case Read => db
    case SetDoc(id, status, error) =>
      if id !in db.docs then db else db.(docs := db.docs[id := db.docs[id].(status := status, error := error)])
    case StartJob(id) =>
      if id !in db.jobs then db
      else db.(jobs := db.jobs[id := db.jobs[id].(status := RUNNING, attempts := db.jobs[id].attempts + 1)])
    case SetJob(id, status, error) =>
      if id !in db.jobs then db else db.(jobs := db.jobs[id := db.jobs[id].(status := status, error := error)])
    case DeleteChunks(org, doc) => db.(chunks := Keep(db.chunks, org, doc))
    case Insert(key, row) =>
      if key in db.chunks then db.(clashed := true) else db.(chunks := db.chunks[key := row])
    case Log(event) => db.(events := db.events + [event])
  }

  function Keep(chunks: map<Key, Row>, org: Id, doc: Id): map<Key, Row> {
    map k | k in chunks && !(k.documentId == doc && chunks[k].organizationId == org) :: chunks[k]
  }

  /** The first `n` statements of a plan. */
  function Exec(db: Database, plan: seq<Effect>, n: nat): Database
    decreases n
  {
    if n == 0 || plan == [] then db else Exec(Apply(db, plan[0]), plan[1..], n - 1)
  }

  lemma {:induction false} ExecAppend(db: Database, a: seq<Effect>, b: seq<Effect>, n: nat)
    ensures Exec(db, a + b, n) ==
      if n < |a| then Exec(db, a, n) else Exec(Exec(db, a, n), b, n - |a|)
    decreases n
  {
    hide Apply;
    if a == [] {
      assert a + b == b;
    } else if n > 0 {
      assert (a + b)[1..] == a[1..] + b;
      ExecAppend(Apply(db, a[0]), a[1..], b, n - 1);
    }
  }

  // ---------------------------------------------------------------------- the plan

  function Chunks(env: Env, stored: string): seq<TextChunk> {
    ChunkText(if env.piiRedactionEnabled then env.redact(stored) else stored, DEFAULT_MAX, DEFAULT_OVERLAP)
  }

  function RowFor(env: Env, org: Id, c: TextChunk): Row {
    Row(org, c.content, c.tokenCount, env.embed(c.content), env.model)
  }

  function BatchEnd(cs: seq<TextChunk>, i: nat): (r: nat)
    ensures i < |cs| ==> i < r <= |cs|
  {
    if i + BATCH <= |cs| then i + BATCH else |cs|
  }

  /** The provider's token count for a batch. */
  function Tokens(env: Env, batch: seq<TextChunk>): nat {
    if batch == [] then 0 else Tokens(env, batch[..|batch| - 1]) + env.tokens(batch[|batch| - 1].content)
  }

  function BatchEvent(env: Env, job: Job, batch: seq<TextChunk>): Event {
    Event(job.organizationId, Tokens(env, batch), EmbeddingCostMicros(env.model, Tokens(env, batch)))
  }

  function Inserts(env: Env, job: Job, batch: seq<TextChunk>): seq<Effect> {
    if batch == [] then []
    else [Insert(Key(job.documentId, batch[0].index), RowFor(env, job.organizationId, batch[0]))]
         + Inserts(env, job, batch[1..])
  }

  function Batches(env: Env, job: Job, cs: seq<TextChunk>, i: nat): seq<Effect>
    decreases |cs| - i
  {
    if i >= |cs| then []
    else
      var batch := cs[i..BatchEnd(cs, i)];
      [Read] + (Inserts(env, job, batch) + ([Log(BatchEvent(env, job, batch))] + Batches(env, job, cs, BatchEnd(cs, i))))
  }

  function Start(job: Job): seq<Effect> {
    [Read, SetDoc(job.documentId, PROCESSING, None), StartJob(job.jobId)]
  }

  function Finish(job: Job): seq<Effect> {
    [SetDoc(job.documentId, INDEXED, None), SetJob(job.jobId, COMPLETED, None)]
  }

  function Body(env: Env, job: Job, cs: seq<TextChunk>): seq<Effect> {
    [Read, DeleteChunks(job.organizationId, job.documentId)] + (Batches(env, job, cs, 0) + Finish(job))
  }

  function Handler(job: Job, message: string): seq<Effect> {
    [SetDoc(job.documentId, DocStatus.FAILED, Some(message)), SetJob(job.jobId, JobStatus.FAILED, Some(message))]
  }

  // -------------------------------------------------------------------- attempts

  /**
   * Where an attempt breaks off: after `at` statements it crashes, or the next one
   * throws and `handled` statements of the error handler still run.
   */
  datatype Fault = Fault(at: nat, throws: bool, message: string, handled: nat)

  datatype Outcome = Completed(chunkCount: nat, costMicros: nat) | Stopped

  function TotalCost(env: Env, cs: seq<TextChunk>, i: nat): nat
    decreases |cs| - i
  {
    if i >= |cs| then 0
    else EmbeddingCostMicros(env.model, Tokens(env, cs[i..BatchEnd(cs, i)])) + TotalCost(env, cs, BatchEnd(cs, i))
  }

  predicate Found(db: Database, job: Job) {
    job.documentId in db.docs && db.docs[job.documentId].organizationId == job.organizationId &&
    db.docs[job.documentId].sourceUri.Some? && db.docs[job.documentId].sourceUri.value != ""
  }

  /** How many of the first three statements, which no handler guards, succeed. */
  function Started(db: Database, job: Job, fault: Fault): nat {
    if job.jobId !in db.jobs && fault.at >= 2 then 2 else if fault.at < 3 then fault.at else 3
  }

  function Attempt(env: Env, db: Database, job: Job, cs: seq<TextChunk>, fault: Fault): (Outcome, Database) {
    if fault.at == 0 || !Found(db, job) then (Stopped, db)
    else
      var started := Exec(db, Start(job), Started(db, job, fault));
      if Started(db, job, fault) < 3 then (Stopped, started)
      else
        var body := Body(env, job, cs);
        var worked := Exec(started, body, fault.at - 3);
        if fault.at - 3 >= |body| then (Completed(|cs|, TotalCost(env, cs, 0)), worked)
        else if fault.throws then (Stopped, Exec(worked, Handler(job, fault.message), fault.handled))
        else (Stopped, worked)
  }

  /** One attempt to ingest a stored text. */
  function IngestStored(env: Env, db: Database, job: Job, stored: string, fault: Fault): (Outcome, Database) {
    Attempt(env, db, job, Chunks(env, stored), fault)
  }

  /** The document has exactly the rows of the first `m` chunks of `text`, each with its own embedding. */
  ghost predicate RowsAre(env: Env, chunks: map<Key, Row>, job: Job, text: string, m: nat) {
    var cs := ChunkText(text, 1200, 150);
    m <= |cs| && forall k: Key :: k.documentId == job.documentId ==>
      (k in chunks <==> k.index < m) &&
      (k in chunks ==> chunks[k] == Row(job.organizationId, cs[k.index].content, cs[k.index].tokenCount,
                                        env.embed(cs[k.index].content), env.model))
  }

  /** The document has exactly the rows of the chunks of `text`. */
  ghost predicate IndexedAs(env: Env, chunks: map<Key, Row>, job: Job, text: string) {
    RowsAre(env, chunks, job, text, |ChunkText(text, 1200, 150)|)
  }

  /** One attempt at a time on the shared database; `left` statements still succeed. */
  class Worker {
    var db: Database
    var left: nat

    constructor (db: Database)
      ensures this.db == db
    {
      this.db := db;
      left := 0;
    }

    /** One awaited statement: it takes effect, or the attempt breaks off here. */
    method Execute(e: Effect) returns (ok: bool)
      modifies this
      ensures ok == (old(left) > 0)
      ensures db == if ok then Apply(old(db), e) else old(db)
      ensures left == if ok then old(left) - 1 else 0
    {
      if left == 0 { return false; }
      db := Apply(db, e);
      left := left - 1;
      return true;
    }

    method InsertBatch(env: Env, job: Job, batch: seq<TextChunk>) returns (ok: bool)
      modifies this
      ensures ok == (old(left) >= |Inserts(env, job, batch)|)
      ensures db == Exec(old(db), Inserts(env, job, batch), old(left))
      ensures left == if ok then old(left) - |Inserts(env, job, batch)| else 0
    {
      hide Apply, Exec, Inserts;
      assert batch[0..] == batch;
      for j := 0 to |batch|
        invariant left + |Inserts(env, job, batch)| == old(left) + |Inserts(env, job, batch[j..])|
        invariant Exec(old(db), Inserts(env, job, batch), old(left)) == Exec(db, Inserts(env, job, batch[j..]), left)
      {
        assert batch[j..][1..] == batch[j + 1..];
        InsertStep(db, env, job, batch[j..], left);
        ok := Execute(Insert(Key(job.documentId, batch[j].index), RowFor(env, job.organizationId, batch[j])));
        if !ok { return; }
      }
      NoInserts(db, env, job, batch[|batch|..], left);
      return true;
    }

    method StoreBatches(env: Env, job: Job, cs: seq<TextChunk>) returns (ok: bool, totalCost: nat)
      modifies this
      ensures ok == (old(left) >= |Batches(env, job, cs, 0)|)
      ensures db == Exec(old(db), Batches(env, job, cs, 0), old(left))
      ensures left == if ok then old(left) - |Batches(env, job, cs, 0)| else 0
      ensures ok ==> totalCost == TotalCost(env, cs, 0)
    {
      hide Apply, Exec, Inserts, Batches, TotalCost, Tokens, EmbeddingCostMicros;
      totalCost := 0;
      var i := 0;
      while i < |cs|
        invariant left + |Batches(env, job, cs, 0)| == old(left) + |Batches(env, job, cs, i)|
        invariant Exec(old(db), Batches(env, job, cs, 0), old(left)) == Exec(db, Batches(env, job, cs, i), left)
        invariant totalCost + TotalCost(env, cs, i) == TotalCost(env, cs, 0)
      {
        var batch := cs[i..BatchEnd(cs, i)];
        BatchStep(db, env, job, cs, i, left);
        ReadKeeps(db);
        ok := Execute(Read);
        if !ok { return; }
        ok := InsertBatch(env, job, batch);
        if !ok { return; }
        totalCost := totalCost + EmbeddingCostMicros(env.model, Tokens(env, batch));
        ok := Execute(Log(BatchEvent(env, job, batch)));
        if !ok { return; }
        i := BatchEnd(cs, i);
      }
      NoBatches(db, env, job, cs, i, left);
      return true, totalCost;
    }

    /** The guarded part. */
    method Work(env: Env, job: Job, stored: string) returns (ok: bool, count: nat, cost: nat)
      modifies this
      ensures var body := Body(env, job, Chunks(env, stored));
        ok == (old(left) >= |body|) && db == Exec(old(db), body, old(left))
      ensures ok ==> count == |Chunks(env, stored)| && cost == TotalCost(env, Chunks(env, stored), 0)
    {
      hide Apply, Exec, Batches, TotalCost, ChunkText, Body;
      count, cost := 0, 0;
      ReadKeeps(db);
      BodyRuns(db, env, job, Chunks(env, stored), left);
      ok := Execute(Read);
      if !ok { return; }
      var cs := ComputeChunks(if env.piiRedactionEnabled then env.redact(stored) else stored, DEFAULT_MAX, DEFAULT_OVERLAP);
      count := |cs|;
      ok := Execute(DeleteChunks(job.organizationId, job.documentId));
      if !ok { return; }
      ok, cost := StoreBatches(env, job, cs);
      FinishRuns(db, job, left);
      if !ok { return; }
      ok := Execute(SetDoc(job.documentId, INDEXED, None));
      if !ok { return; }
      ok := Execute(SetJob(job.jobId, COMPLETED, None));
    }

    /** The error handler. */
    method Fail(job: Job, message: string)
      modifies this
      ensures db == Exec(old(db), Handler(job, message), old(left))
    {
      hide Apply, Exec;
      var d, e := SetDoc(job.documentId, DocStatus.FAILED, Some(message)), SetJob(job.jobId, JobStatus.FAILED, Some(message));
      TwoStatements(db, d, e, left);
      var ok := Execute(d);
      if ok { ok := Execute(e); }
    }

    method Ingest(env: Env, job: Job, stored: string, fault: Fault) returns (r: Outcome)
      modifies this
      ensures (r, db) == IngestStored(env, old(db), job, stored, fault)
      ensures Ready(old(db), job) && r.Completed? && env.piiRedactionEnabled
        ==> IndexedAs(env, db.chunks, job, env.redact(stored))
      ensures Ready(old(db), job) && r.Completed? && !env.piiRedactionEnabled ==> IndexedAs(env, db.chunks, job, stored)
    {
      hide Apply, Exec, TotalCost, Chunks, Body, Handler, Start, IndexedAs, Ready;
      CompletedIsIndexed(env, db, job, stored, fault);
      left := fault.at;
      var ok := Execute(Read);
      ReadKeeps(old(db));
      if !ok || !Found(db, job) { return Stopped; }
      StartRuns(db, job, Started(db, job, fault));
      ok := Execute(SetDoc(job.documentId, PROCESSING, None));
      if !ok || job.jobId !in db.jobs { return Stopped; }
      ok := Execute(StartJob(job.jobId));
      if !ok { return Stopped; }
      var count, cost;
      ok, count, cost := Work(env, job, stored);
      if ok { return Completed(count, cost); }
      if fault.throws {
        left := fault.handled;
        Fail(job, fault.message);
      }
      return Stopped;
    }
  }

  lemma ReadKeeps(db: Database)
    ensures Apply(db, Read) == db
  {
  }

  lemma TwoStatements(db: Database, d: Effect, e: Effect, n: nat)
    ensures Exec(db, [d, e], n) == if n == 0 then db else if n == 1 then Apply(db, d) else Apply(Apply(db, d), e)
  {
    hide Apply;
    assert [d, e] == [d] + ([e] + []);
    FirstStatement(db, d, [e] + [], n);
    if n > 0 { FirstStatement(Apply(db, d), e, [], n - 1); }
  }

  lemma StartRuns(db: Database, job: Job, n: nat)
    ensures var a := Apply(db, SetDoc(job.documentId, PROCESSING, None));
      a.jobs == db.jobs &&
      Exec(db, Start(job), n) ==
        if n <= 1 then db else if n == 2 then a else Apply(a, StartJob(job.jobId))
  {
    hide Exec;
    var d, e := SetDoc(job.documentId, PROCESSING, None), StartJob(job.jobId);
    assert Start(job) == [Read] + [d, e];
    FirstStatement(db, Read, [d, e], n);
    if n > 0 { TwoStatements(db, d, e, n - 1); }
  }

  lemma FinishRuns(db: Database, job: Job, n: nat)
    ensures var indexed := Apply(db, SetDoc(job.documentId, INDEXED, None));
      Exec(db, Finish(job), n) ==
        if n == 0 then db else if n == 1 then indexed else Apply(indexed, SetJob(job.jobId, COMPLETED, None))
  {
    hide Exec, Apply;
    TwoStatements(db, SetDoc(job.documentId, INDEXED, None), SetJob(job.jobId, COMPLETED, None), n);
  }

  lemma BodyRuns(db: Database, env: Env, job: Job, cs: seq<TextChunk>, n: nat)
    ensures var bs := Batches(env, job, cs, 0);
      |Body(env, job, cs)| == 4 + |bs| &&
      Exec(db, Body(env, job, cs), n) ==
        if n <= 1 then db
        else
          var w := Exec(Apply(db, DeleteChunks(job.organizationId, job.documentId)), bs, n - 2);
          if n - 2 <= |bs| then w else Exec(w, Finish(job), n - 2 - |bs|)
  {
    hide Exec, Batches;
    var bs := Batches(env, job, cs, 0);
    var d := DeleteChunks(job.organizationId, job.documentId);
    assert Body(env, job, cs) == [Read] + ([d] + (bs + Finish(job)));
    FirstStatement(db, Read, [d] + (bs + Finish(job)), n);
    if n >= 1 { FirstStatement(db, d, bs + Finish(job), n - 1); }
    if n >= 2 {
      var w := Exec(Apply(db, d), bs, n - 2);
      ExecAppend(Apply(db, d), bs, Finish(job), n - 2);
      FinishRuns(w, job, 0);
    }
  }

  lemma NoInserts(db: Database, env: Env, job: Job, batch: seq<TextChunk>, n: nat)
    requires batch == []
    ensures Inserts(env, job, batch) == [] && Exec(db, Inserts(env, job, batch), n) == db
  {
  }

  lemma NoBatches(db: Database, env: Env, job: Job, cs: seq<TextChunk>, i: nat, n: nat)
    requires i >= |cs|
    ensures Batches(env, job, cs, i) == [] && Exec(db, Batches(env, job, cs, i), n) == db && TotalCost(env, cs, i) == 0
  {
  }

  lemma FirstStatement(db: Database, e: Effect, rest: seq<Effect>, n: nat)
    ensures Exec(db, [e] + rest, n) == if n == 0 then db else Exec(Apply(db, e), rest, n - 1)
  {
    hide Apply;
    assert ([e] + rest)[1..] == rest;
  }

  /** A batch: embed, insert each row, log the usage. */
  lemma BatchStep(db: Database, env: Env, job: Job, cs: seq<TextChunk>, i: nat, n: nat)
    requires i < |cs|
    ensures var batch := cs[i..BatchEnd(cs, i)];
      var inserts, rest := Inserts(env, job, batch), Batches(env, job, cs, BatchEnd(cs, i));
      |Batches(env, job, cs, i)| == 2 + |inserts| + |rest| &&
      TotalCost(env, cs, i) == EmbeddingCostMicros(env.model, Tokens(env, batch)) + TotalCost(env, cs, BatchEnd(cs, i)) &&
      Exec(db, Batches(env, job, cs, i), n) ==
        if n < 1 then db
        else
          var inserted := Exec(db, inserts, n - 1);
          if n < 2 + |inserts| then inserted
          else Exec(Apply(inserted, Log(BatchEvent(env, job, batch))), rest, n - 2 - |inserts|)
  {
    hide Exec, Inserts, EmbeddingCostMicros, Tokens, BatchEvent, BatchEnd;
    var batch := cs[i..BatchEnd(cs, i)];
    var inserts, rest := Inserts(env, job, batch), Batches(env, job, cs, BatchEnd(cs, i));
    var log := Log(BatchEvent(env, job, batch));
    FirstStatement(db, Read, inserts + ([log] + rest), n);
    if n >= 1 {
      ExecAppend(db, inserts, [log] + rest, n - 1);
      if n - 1 >= |inserts| { FirstStatement(Exec(db, inserts, n - 1), log, rest, n - 1 - |inserts|); }
    }
  }

  lemma InsertStep(db: Database, env: Env, job: Job, batch: seq<TextChunk>, n: nat)
    requires batch != []
    ensures var e := Insert(Key(job.documentId, batch[0].index), RowFor(env, job.organizationId, batch[0]));
      |Inserts(env, job, batch)| == 1 + |Inserts(env, job, batch[1..])| &&
      Exec(db, Inserts(env, job, batch), n)
      == if n == 0 then db else Exec(Apply(db, e), Inserts(env, job, batch[1..]), n - 1)
  {
    hide Apply;
    assert Inserts(env, job, batch)[1..] == Inserts(env, job, batch[1..]);
  }

  // ----------------------------------------------------- what an attempt leaves behind

  /** The chunk rows of the document are exactly those of the first `n` chunks. */
  ghost predicate Holds(env: Env, chunks: map<Key, Row>, job: Job, cs: seq<TextChunk>, n: nat)
    requires n <= |cs|
  {
    forall k: Key :: k.documentId == job.documentId ==>
      (k in chunks <==> k.index < n) && (k in chunks ==> chunks[k] == RowFor(env, job.organizationId, cs[k.index]))
  }

  /** Chunks carry the indices 0, 1, 2, ... */
  predicate Numbered(cs: seq<TextChunk>) {
    forall i :: 0 <= i < |cs| ==> cs[i].index == i
  }

  lemma ChunksAreNumbered(env: Env, stored: string)
    ensures Numbered(Chunks(env, stored))
  {
    hide ChunkText;
    var text := if env.piiRedactionEnabled then env.redact(stored) else stored;
    ChunkShape(text, DEFAULT_MAX, DEFAULT_OVERLAP);
    forall i | 0 <= i < |Chunks(env, stored)| ensures Chunks(env, stored)[i].index == i {
      assert WellFormedChunk(ChunkText(text, DEFAULT_MAX, DEFAULT_OVERLAP)[i], 0 + i, DEFAULT_MAX, DEFAULT_OVERLAP);
    }
  }

  /** Rows of other documents are as they were. */
  ghost predicate OthersKept(d: Id, before: map<Key, Row>, after: map<Key, Row>) {
    forall k: Key :: k.documentId != d ==>
      (k in after <==> k in before) && (k in after ==> after[k] == before[k])
  }

  /** Only this document's chunk rows and the usage events changed, and no insert clashed. */
  ghost predicate OnlyChunks(d: Id, before: Database, after: Database) {
    after.docs == before.docs && after.jobs == before.jobs && after.clashed == before.clashed &&
    OthersKept(d, before.chunks, after.chunks)
  }

  lemma InsertOne(env: Env, db: Database, job: Job, cs: seq<TextChunk>, i: nat)
    requires Numbered(cs) && i < |cs| && Holds(env, db.chunks, job, cs, i)
    ensures var t := Apply(db, Insert(Key(job.documentId, cs[i].index), RowFor(env, job.organizationId, cs[i])));
      Holds(env, t.chunks, job, cs, i + 1) && OnlyChunks(job.documentId, db, t)
  {
    assert Key(job.documentId, i) !in db.chunks;
  }

  lemma OnlyChunksTrans(d: Id, a: Database, b: Database, c: Database)
    requires OnlyChunks(d, a, b) && OnlyChunks(d, b, c)
    ensures OnlyChunks(d, a, c)
  {
  }

  /** However many inserts of a batch succeed, the rows are those of an initial part of the chunks. */
  lemma {:induction false} InsertsFill(env: Env, db: Database, job: Job, cs: seq<TextChunk>, i: nat, e: nat, n: nat)
    requires Numbered(cs) && i <= e <= |cs| && Holds(env, db.chunks, job, cs, i)
    ensures |Inserts(env, job, cs[i..e])| == e - i
    ensures var t := Exec(db, Inserts(env, job, cs[i..e]), n);
      Holds(env, t.chunks, job, cs, if n < e - i then i + n else e) && OnlyChunks(job.documentId, db, t)
    decreases e - i
  {
    hide Holds, Apply, Exec, Inserts, OnlyChunks, Numbered, RowFor;
    var batch := cs[i..e];
    NothingChanged(job.documentId, db);
    if i == e {
      NoInserts(db, env, job, batch, n);
    } else {
      assert batch[1..] == cs[i + 1..e] && batch[0] == cs[i];
      InsertStep(db, env, job, batch, n);
      InsertOne(env, db, job, cs, i);
      var t := Apply(db, Insert(Key(job.documentId, cs[i].index), RowFor(env, job.organizationId, cs[i])));
      InsertsFill(env, t, job, cs, i + 1, e, if n == 0 then 0 else n - 1);
      if n > 0 {
        OnlyChunksTrans(job.documentId, db, t, Exec(t, Inserts(env, job, cs[i + 1..e]), n - 1));
      }
    }
  }

  lemma NothingChanged(d: Id, db: Database)
    ensures OnlyChunks(d, db, db)
  {
  }

  /** The same for all batches: `m` chunks are stored, and all of them when no statement failed. */
  lemma {:induction false} BatchesFill(env: Env, db: Database, job: Job, cs: seq<TextChunk>, i: nat, n: nat)
    returns (m: nat)
    requires Numbered(cs) && i <= |cs| && Holds(env, db.chunks, job, cs, i)
    ensures i <= m <= |cs| && (n >= |Batches(env, job, cs, i)| ==> m == |cs|)
    ensures var t := Exec(db, Batches(env, job, cs, i), n);
      Holds(env, t.chunks, job, cs, m) && OnlyChunks(job.documentId, db, t)
    decreases |cs| - i
  {
    hide Holds, Apply, Exec, Inserts, OnlyChunks, Numbered, Batches, BatchEvent, TotalCost, EmbeddingCostMicros;
    NothingChanged(job.documentId, db);
    if i == |cs| {
      NoBatches(db, env, job, cs, i, n);
      m := i;
    } else {
      var e := BatchEnd(cs, i);
      var inserts := Inserts(env, job, cs[i..e]);
      BatchStep(db, env, job, cs, i, n);
      if n < 1 {
        m := i;
      } else {
        InsertsFill(env, db, job, cs, i, e, n - 1);
        var inserted := Exec(db, inserts, n - 1);
        if n < 2 + |inserts| {
          m := if n - 1 < e - i then i + n - 1 else e;
        } else {
          var log := Log(BatchEvent(env, job, cs[i..e]));
          var logged := Apply(inserted, log);
          LogKeeps(job.documentId, inserted, log);
          m := BatchesFill(env, logged, job, cs, e, n - 2 - |inserts|);
          OnlyChunksTrans(job.documentId, db, inserted, logged);
          OnlyChunksTrans(job.documentId, db, logged, Exec(logged, Batches(env, job, cs, e), n - 2 - |inserts|));
        }
      }
    }
  }

  lemma LogKeeps(d: Id, db: Database, e: Effect)
    requires e.Log?
    ensures OnlyChunks(d, db, Apply(db, e)) && Apply(db, e).chunks == db.chunks
  {
  }

  /** The rows of the document belong to its organization, so that they can be deleted. */
  ghost predicate Owned(chunks: map<Key, Row>, job: Job) {
    forall k :: k in chunks && k.documentId == job.documentId ==> chunks[k].organizationId == job.organizationId
  }

  lemma DeletionEmpties(env: Env, db: Database, job: Job, cs: seq<TextChunk>)
    requires Owned(db.chunks, job)
    ensures var t := Apply(db, DeleteChunks(job.organizationId, job.documentId));
      Holds(env, t.chunks, job, cs, 0) && OnlyChunks(job.documentId, db, t)
  {
  }

  lemma HeldIsOwned(env: Env, chunks: map<Key, Row>, job: Job, cs: seq<TextChunk>, n: nat)
    requires n <= |cs| && Holds(env, chunks, job, cs, n)
    ensures Owned(chunks, job)
  {
  }

  /** The guarded part, wherever it breaks off: the rows are the old ones or those of the first `m` chunks. */
  lemma BodyFill(env: Env, db: Database, job: Job, cs: seq<TextChunk>, n: nat) returns (m: nat)
    requires Numbered(cs) && Owned(db.chunks, job) && job.documentId in db.docs && job.jobId in db.jobs
    ensures m <= |cs|
    ensures var t := Exec(db, Body(env, job, cs), n);
      (t.chunks == db.chunks || Holds(env, t.chunks, job, cs, m)) && OthersKept(job.documentId, db.chunks, t.chunks) &&
      t.clashed == db.clashed && Touches(job, db, t) &&
      if n < |Body(env, job, cs)| then t.jobs == db.jobs
      else Holds(env, t.chunks, job, cs, |cs|) && Succeeded(job, t)
  {
    hide Holds, Exec, Batches, Body, OthersKept, Apply, Touches, Finish;
    BodyRuns(db, env, job, cs, n);
    TouchesNothing(job, db);
    if n <= 1 {
      m := 0;
    } else {
      var d := Apply(db, DeleteChunks(job.organizationId, job.documentId));
      var bs := Batches(env, job, cs, 0);
      DeletionEmpties(env, db, job, cs);
      m := BatchesFill(env, d, job, cs, 0, n - 2);
      var w := Exec(d, bs, n - 2);
      OnlyChunksTrans(job.documentId, db, d, w);
      SameRowsTouchNothing(job, db, w);
      if n - 2 > |bs| {
        FinishTouches(w, job, n - 2 - |bs|);
        TouchesTrans(job, db, w, Exec(w, Finish(job), n - 2 - |bs|));
      }
    }
  }

  lemma FinishTouches(db: Database, job: Job, n: nat)
    requires job.documentId in db.docs && job.jobId in db.jobs
    ensures var t := Exec(db, Finish(job), n);
      Touches(job, db, t) && t.chunks == db.chunks && t.clashed == db.clashed &&
      (n < 2 ==> t.jobs == db.jobs) && (n >= 2 ==> Succeeded(job, t))
  {
    hide Exec;
    FinishRuns(db, job, n);
  }

  lemma SameRowsTouchNothing(job: Job, a: Database, b: Database)
    requires a.docs == b.docs && a.jobs == b.jobs
    ensures Touches(job, a, b)
  {
  }

  lemma TouchesTrans(job: Job, a: Database, b: Database, c: Database)
    requires Touches(job, a, b) && Touches(job, b, c)
    ensures Touches(job, a, c)
  {
  }

  /** Only this document's row and this job's row changed, and no document changed owner or source. */
  predicate Touches(job: Job, before: Database, after: Database) {
    after.docs.Keys == before.docs.Keys && after.jobs.Keys == before.jobs.Keys &&
    (forall d :: d in before.docs && d != job.documentId ==> after.docs[d] == before.docs[d]) &&
    (forall j :: j in before.jobs && j != job.jobId ==> after.jobs[j] == before.jobs[j]) &&
    (job.documentId in before.docs ==>
       after.docs[job.documentId].organizationId == before.docs[job.documentId].organizationId &&
       after.docs[job.documentId].sourceUri == before.docs[job.documentId].sourceUri)
  }

  /** The document is indexed and the job is done. */
  predicate Succeeded(job: Job, db: Database) {
    job.documentId in db.docs && db.docs[job.documentId].status == INDEXED && db.docs[job.documentId].error == None &&
    job.jobId in db.jobs && db.jobs[job.jobId].status == COMPLETED && db.jobs[job.jobId].error == None
  }

  /** The document can be ingested: it and its job exist and its rows are its own. */
  ghost predicate Ready(db: Database, job: Job) {
    Found(db, job) && job.jobId in db.jobs && Owned(db.chunks, job)
  }

  /** What every attempt leaves behind, whether it succeeds, fails or crashes. */
  ghost predicate Left(env: Env, before: Database, job: Job, cs: seq<TextChunk>, after: Database) {
    Ready(after, job) && Touches(job, before, after) && OthersKept(job.documentId, before.chunks, after.chunks) &&
    after.clashed == before.clashed &&
    (after.chunks == before.chunks ||
     exists m: nat | m <= |cs| :: Holds(env, after.chunks, job, cs, m))
  }

  lemma StartTouches(db: Database, job: Job, n: nat)
    requires Ready(db, job)
    ensures var t := Exec(db, Start(job), n);
      Ready(t, job) && Touches(job, db, t) && t.chunks == db.chunks && t.clashed == db.clashed &&
      (n < 3 ==> t.jobs == db.jobs) && (n >= 3 ==> t.jobs[job.jobId].status == RUNNING)
  {
    hide Exec;
    StartRuns(db, job, n);
  }

  lemma HandlerTouches(db: Database, job: Job, message: string, n: nat)
    requires job.documentId in db.docs && job.jobId in db.jobs
    ensures var t := Exec(db, Handler(job, message), n);
      Touches(job, db, t) && t.chunks == db.chunks && t.clashed == db.clashed &&
      (n >= 2 ==> t.docs[job.documentId].status == DocStatus.FAILED && t.docs[job.documentId].error == Some(message) &&
                  t.jobs[job.jobId].status == JobStatus.FAILED && t.jobs[job.jobId].error == Some(message)) &&
      (t.jobs == db.jobs || t.jobs[job.jobId].status == JobStatus.FAILED)
  {
    hide Exec;
    TwoStatements(db, SetDoc(job.documentId, DocStatus.FAILED, Some(message)),
                  SetJob(job.jobId, JobStatus.FAILED, Some(message)), n);
  }

  lemma TouchesKeepReady(job: Job, a: Database, b: Database)
    requires Ready(a, job) && Touches(job, a, b) && Owned(b.chunks, job)
    ensures Ready(b, job)
  {
  }

  /** One attempt: what it leaves, what success means, and that only success completes the job. */
  lemma AttemptLeaves(env: Env, db: Database, job: Job, cs: seq<TextChunk>, fault: Fault)
    requires Ready(db, job) && Numbered(cs)
    ensures var (r, t) := Attempt(env, db, job, cs, fault);
      Left(env, db, job, cs, t) &&
      (r.Completed? <==> fault.at >= 3 + |Body(env, job, cs)|) &&
      (r.Completed? ==> r == Completed(|cs|, TotalCost(env, cs, 0)) &&
                        Holds(env, t.chunks, job, cs, |cs|) && Succeeded(job, t)) &&
      (r.Stopped? ==> t.jobs[job.jobId].status != COMPLETED || t.jobs == db.jobs)
  {
    hide Exec, Start, Body, Handler, Holds, OthersKept, TotalCost, Batches, Touches, Owned;
    TouchesNothing(job, db);
    if fault.at > 0 {
      var n := Started(db, job, fault);
      StartTouches(db, job, n);
      if n == 3 {
        var started := Exec(db, Start(job), 3);
        var m := BodyFill(env, started, job, cs, fault.at - 3);
        var worked := Exec(started, Body(env, job, cs), fault.at - 3);
        if worked.chunks != started.chunks { HeldIsOwned(env, worked.chunks, job, cs, m); }
        TouchesTrans(job, db, started, worked);
        TouchesKeepReady(job, db, worked);
        HandlerTouches(worked, job, fault.message, fault.handled);
        var handled := Exec(worked, Handler(job, fault.message), fault.handled);
        TouchesTrans(job, db, worked, handled);
        TouchesKeepReady(job, db, handled);
      }
    }
  }

  // --------------------------------------------------------------------- whole runs

  /** Attempts one after the other. */
  function After(env: Env, db: Database, job: Job, cs: seq<TextChunk>, faults: seq<Fault>): Database
    decreases |faults|
  {
    if faults == [] then db
    else Attempt(env, After(env, db, job, cs, faults[..|faults| - 1]), job, cs, faults[|faults| - 1]).1
  }

  /** What any number of attempts leave behind: other documents and jobs as they were, and no clash. */
  lemma {:induction false} AttemptsLeave(env: Env, db: Database, job: Job, cs: seq<TextChunk>, faults: seq<Fault>)
    requires Ready(db, job) && Numbered(cs)
    ensures Left(env, db, job, cs, After(env, db, job, cs, faults))
    decreases |faults|
  {
    hide Attempt, Holds, OthersKept, Ready, Touches;
    if faults == [] {
      NothingChanged(job.documentId, db);
      assert Touches(job, db, db) by { TouchesNothing(job, db); }
    } else {
      var t := After(env, db, job, cs, faults[..|faults| - 1]);
      AttemptsLeave(env, db, job, cs, faults[..|faults| - 1]);
      AttemptLeaves(env, t, job, cs, faults[|faults| - 1]);
      LeftTrans(env, db, t, After(env, db, job, cs, faults), job, cs);
    }
  }

  lemma TouchesNothing(job: Job, db: Database)
    ensures Touches(job, db, db) && OthersKept(job.documentId, db.chunks, db.chunks)
  {
  }

  lemma LeftTrans(env: Env, a: Database, b: Database, c: Database, job: Job, cs: seq<TextChunk>)
    requires Left(env, a, job, cs, b) && Left(env, b, job, cs, c)
    ensures Left(env, a, job, cs, c)
  {
    hide Holds, Ready;
  }

  /**
   * Recoverability: after any failed or crashed attempts, one attempt in which
   * nothing fails leaves exactly the rows of the chunks, numbered from 0, whatever
   * rows were there before; and no insert ever met an existing row.
   */
  lemma RetryRecovers(env: Env, db: Database, job: Job, cs: seq<TextChunk>, faults: seq<Fault>, last: Fault)
    requires Ready(db, job) && Numbered(cs) && last.at >= 3 + |Body(env, job, cs)|
    ensures var (r, t) := Attempt(env, After(env, db, job, cs, faults), job, cs, last);
      r == Completed(|cs|, TotalCost(env, cs, 0)) && Holds(env, t.chunks, job, cs, |cs|) && Succeeded(job, t) &&
      OthersKept(job.documentId, db.chunks, t.chunks) && Touches(job, db, t) && t.clashed == db.clashed
  {
    hide Attempt, Holds, Ready, Body;
    var t := After(env, db, job, cs, faults);
    AttemptsLeave(env, db, job, cs, faults);
    AttemptLeaves(env, t, job, cs, last);
    LeftTrans(env, db, t, Attempt(env, t, job, cs, last).1, job, cs);
  }

  /** An attempt in which nothing fails. */
  function Undisturbed(env: Env, job: Job, cs: seq<TextChunk>): Fault {
    Fault(3 + |Body(env, job, cs)|, false, "", 0)
  }

  /** So the rows become those of the chunks of the stored, possibly redacted text. */
  lemma StoredTextIsIndexed(env: Env, db: Database, job: Job, stored: string, faults: seq<Fault>)
    requires Ready(db, job)
    ensures var cs := Chunks(env, stored);
      var (r, t) := Attempt(env, After(env, db, job, cs, faults), job, cs, Undisturbed(env, job, cs));
      r == Completed(|cs|, TotalCost(env, cs, 0)) && Holds(env, t.chunks, job, cs, |cs|) && Succeeded(job, t)
  {
    hide Attempt, Holds, Ready, Body, Chunks, TotalCost, Succeeded;
    ChunksAreNumbered(env, stored);
    RetryRecovers(env, db, job, Chunks(env, stored), faults, Undisturbed(env, job, Chunks(env, stored)));
  }

  // ------------------------------------------------------------- which text is indexed

  lemma HeldRowsAre(env: Env, chunks: map<Key, Row>, job: Job, stored: string, m: nat)
    requires m <= |Chunks(env, stored)| && Holds(env, chunks, job, Chunks(env, stored), m)
    ensures env.piiRedactionEnabled ==> RowsAre(env, chunks, job, env.redact(stored), m)
    ensures !env.piiRedactionEnabled ==> RowsAre(env, chunks, job, stored, m)
  {
    hide ChunkText;
  }

  lemma CompletedIsIndexed(env: Env, db: Database, job: Job, stored: string, fault: Fault)
    ensures var (r, t) := IngestStored(env, db, job, stored, fault);
      Ready(db, job) && r.Completed? ==>
        if env.piiRedactionEnabled then IndexedAs(env, t.chunks, job, env.redact(stored))
        else IndexedAs(env, t.chunks, job, stored)
  {
    hide Attempt, Holds, Ready, RowsAre, ChunkText, Left, Succeeded, TotalCost;
    if Ready(db, job) {
      ChunksAreNumbered(env, stored);
      AttemptLeaves(env, db, job, Chunks(env, stored), fault);
      var (r, t) := IngestStored(env, db, job, stored, fault);
      if r.Completed? {
        HeldRowsAre(env, t.chunks, job, stored, |Chunks(env, stored)|);
      }
    }
  }

  /** A queue that retries a job until it is completed. */
  function Retried(env: Env, db: Database, job: Job, cs: seq<TextChunk>, faults: seq<Fault>): Database
    decreases |faults|
  {
    if faults == [] then db
    else
      var t := Retried(env, db, job, cs, faults[..|faults| - 1]);
      if job.jobId in t.jobs && t.jobs[job.jobId].status == COMPLETED then t
      else Attempt(env, t, job, cs, faults[|faults| - 1]).1
  }

  /** A completed job means an indexed document with exactly the right rows. */
  lemma {:induction false} CompletedMeansIndexed(env: Env, db: Database, job: Job, cs: seq<TextChunk>, faults: seq<Fault>)
    requires Ready(db, job) && Numbered(cs) && db.jobs[job.jobId].status != COMPLETED
    ensures var t := Retried(env, db, job, cs, faults);
      Ready(t, job) &&
      (t.jobs[job.jobId].status == COMPLETED ==> Succeeded(job, t) && Holds(env, t.chunks, job, cs, |cs|))
    decreases |faults|
  {
    hide Attempt, Holds, Owned, Touches;
    if faults != [] {
      CompletedMeansIndexed(env, db, job, cs, faults[..|faults| - 1]);
      var t := Retried(env, db, job, cs, faults[..|faults| - 1]);
      if t.jobs[job.jobId].status != COMPLETED {
        AttemptLeaves(env, t, job, cs, faults[|faults| - 1]);
      }
    }
  }

  /**
   * Retrying a job that is already completed can break this: the document is marked
   * first, so an attempt that stops right there leaves a completed job whose
   * document is being processed. It does so exactly when two statements succeed.
   */
  lemma RerunOfCompletedJob(env: Env, db: Database, job: Job, cs: seq<TextChunk>, fault: Fault)
    requires Ready(db, job) && Numbered(cs) && Succeeded(job, db)
    ensures var t := Attempt(env, db, job, cs, fault).1;
      job.documentId in t.docs && job.jobId in t.jobs &&
      ((t.jobs[job.jobId].status == COMPLETED && t.docs[job.documentId].status != INDEXED) <==> fault.at == 2)
  {
    hide Exec, Start, Body, Handler, Holds, OthersKept, TotalCost, Owned;
    AttemptLeaves(env, db, job, cs, fault);
    if fault.at > 0 {
      StartRuns(db, job, Started(db, job, fault));
      if fault.at >= 3 {
        var started := Exec(db, Start(job), 3);
        StartTouches(db, job, 3);
        var m := BodyFill(env, started, job, cs, fault.at - 3);
        HandlerTouches(Exec(started, Body(env, job, cs), fault.at - 3), job, fault.message, fault.handled);
      }
    }
  }

  /** A failure whose handler runs is recorded on the document and on the job. */
  lemma FailureIsRecorded(env: Env, db: Database, job: Job, cs: seq<TextChunk>, fault: Fault)
    requires Ready(db, job) && Numbered(cs) && fault.throws && fault.handled >= 2
    requires 3 <= fault.at < 3 + |Body(env, job, cs)|
    ensures var t := Attempt(env, db, job, cs, fault).1;
      job.documentId in t.docs && job.jobId in t.jobs &&
      t.docs[job.documentId].status == DocStatus.FAILED && t.docs[job.documentId].error == Some(fault.message) &&
      t.jobs[job.jobId].status == JobStatus.FAILED && t.jobs[job.jobId].error == Some(fault.message)
  {
    hide Exec, Start, Body, Handler, Holds, OthersKept, TotalCost, Owned;
    StartTouches(db, job, 3);
    var started := Exec(db, Start(job), 3);
    var m := BodyFill(env, started, job, cs, fault.at - 3);
    HandlerTouches(Exec(started, Body(env, job, cs), fault.at - 3), job, fault.message, fault.handled);
  }

  // ------------------------------------------------------------------------- batches

  /** The batches that are embedded one after the other. */
  function Slices(cs: seq<TextChunk>, i: nat): seq<seq<TextChunk>>
    decreases |cs| - i
  {
    if i >= |cs| then [] else [cs[i..BatchEnd(cs, i)]] + Slices(cs, BatchEnd(cs, i))
  }

  /** The batches are the chunk list cut into runs of 32, the last one perhaps shorter: nothing is lost, doubled or moved. */
  lemma {:induction false} BatchesFlatten(cs: seq<TextChunk>, i: nat)
    requires i <= |cs|
    ensures var slices := Slices(cs, i);
      Concat(slices) == cs[i..] && |slices| == (|cs| - i + 31) / 32 &&
      (forall b :: b in slices ==> 1 <= |b| <= 32) &&
      forall k :: 0 <= k < |slices| - 1 ==> |slices[k]| == 32
    decreases |cs| - i
  {
    if i < |cs| {
      var e := BatchEnd(cs, i);
      BatchesFlatten(cs, e);
      assert Slices(cs, i)[1..] == Slices(cs, e);
      assert cs[i..e] + cs[e..] == cs[i..];
    }
  }

  /** The plan embeds, inserts and logs exactly those batches, in order. */
  function Steps(env: Env, job: Job, slices: seq<seq<TextChunk>>): seq<Effect> {
    if slices == [] then []
    else [Read] + (Inserts(env, job, slices[0]) + ([Log(BatchEvent(env, job, slices[0]))] + Steps(env, job, slices[1..])))
  }

  lemma {:induction false} PlanFollowsSlices(env: Env, job: Job, cs: seq<TextChunk>, i: nat)
    ensures Batches(env, job, cs, i) == Steps(env, job, Slices(cs, i))
    decreases |cs| - i
  {
    hide Inserts, BatchEvent;
    if i < |cs| {
      PlanFollowsSlices(env, job, cs, BatchEnd(cs, i));
      assert Slices(cs, i)[1..] == Slices(cs, BatchEnd(cs, i));
    }
  }

  /** Token counts of the batches. */
  function BatchTokens(env: Env, slices: seq<seq<TextChunk>>): (r: seq<nat>)
    ensures |r| == |slices|
  {
    if slices == [] then [] else [Tokens(env, slices[0])] + BatchTokens(env, slices[1..])
  }

  lemma {:induction false} TokensAppend(env: Env, a: seq<TextChunk>, b: seq<TextChunk>)
    ensures Tokens(env, a + b) == Tokens(env, a) + Tokens(env, b)
  {
    if b == [] {
      assert a + b == a;
    } else {
      TokensAppend(env, a, b[..|b| - 1]);
      assert (a + b)[..|a + b| - 1] == a + b[..|b| - 1];
    }
  }

  lemma {:induction false} TokensOfSlices(env: Env, slices: seq<seq<TextChunk>>)
    ensures Sum(BatchTokens(env, slices)) == Tokens(env, Concat(slices))
  {
    if slices != [] {
      TokensOfSlices(env, slices[1..]);
      TokensAppend(env, slices[0], Concat(slices[1..]));
    }
  }

  lemma {:induction false} CostOfSlices(env: Env, cs: seq<TextChunk>, i: nat)
    ensures TotalCost(env, cs, i) == Bills(env.model, BatchTokens(env, Slices(cs, i)))
    decreases |cs| - i
  {
    hide EmbeddingCostMicros, Tokens;
    if i < |cs| {
      CostOfSlices(env, cs, BatchEnd(cs, i));
      assert Slices(cs, i)[1..] == Slices(cs, BatchEnd(cs, i));
    }
  }

  /** Billing in batches of 32 loses less than one micro-USD per batch against one bill. */
  lemma BatchingLoss(env: Env, cs: seq<TextChunk>)
    requires cs != []
    ensures var whole := EmbeddingCostMicros(env.model, Tokens(env, cs));
      whole <= TotalCost(env, cs, 0) <= whole + (|cs| + BATCH - 1) / BATCH - 1
  {
    hide EmbeddingCostMicros, Tokens, TotalCost, Slices, BatchTokens;
    BatchesFlatten(cs, 0);
    assert cs[0..] == cs;
    TokensOfSlices(env, Slices(cs, 0));
    CostOfSlices(env, cs, 0);
    BatchingCosts(env.model, BatchTokens(env, Slices(cs, 0)));
  }
}
