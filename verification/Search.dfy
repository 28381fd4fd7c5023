/** The retrieval pipeline once the two row lists are known: fuse, check access, rerank, threshold. */
module Search {
  import opened Text
  import opened Acl
  import opened Fusion
  import Sorting

  datatype ChunkRow = ChunkRow(id: string, documentId: string, content: string, title: string)

  datatype RerankHit = RerankHit(index: nat, score: real)

  datatype SearchHit = SearchHit(chunkId: string, documentId: string, content: string, score: real, title: string)

  type Reranker = (seq<string>, int) -> seq<RerankHit>

  type Rows = seq<ChunkRow>

  // ------------------------------------------------------------------ specification

  function Ranked(rows: Rows): (r: Hits)
    ensures |r| == |rows|
    ensures forall i :: 0 <= i < |rows| ==> r[i] == RankedHit(rows[i].id, i + 1)
  {
    if rows == [] then [] else Ranked(rows[..|rows| - 1]) + [RankedHit(rows[|rows| - 1].id, |rows|)]
  }

  /** The last row with each id. */
  function ById(rows: Rows): (r: map<string, ChunkRow>)
    ensures forall id :: id in r ==> r[id].id == id && r[id] in rows
    ensures forall row :: row in rows ==> row.id in r
  {
    if rows == [] then map[] else ById(rows[..|rows| - 1])[rows[|rows| - 1].id := rows[|rows| - 1]]
  }

  function OfDoc(d: string): AclEntry -> bool {
    (a: AclEntry) => a.documentId == d
  }

  /** The principal may read the document, by its own grants and without an administrator's bypass. */
  predicate Readable(table: seq<AclEntry>, p: Principal, d: string) {
    d != "" && CanAccess(Filter(table, OfDoc(d)), p, false)
  }

  /** The fused chunks the principal may read, in fused order. */
  function Chosen(fused: seq<FusedHit>, byId: map<string, ChunkRow>, table: seq<AclEntry>, p: Principal): Rows {
    if fused == [] then []
    else
      var front := Chosen(fused[..|fused| - 1], byId, table, p);
      var id := fused[|fused| - 1].id;
      if id in byId && Readable(table, p, byId[id].documentId) then front + [byId[id]] else front
  }

  function Contents(rows: Rows): (r: seq<string>)
    ensures |r| == |rows|
  {
    if rows == [] then [] else Contents(rows[..|rows| - 1]) + [rows[|rows| - 1].content]
  }

  /** What a reranker owes its caller. */
  predicate Honest(hits: seq<RerankHit>, documents: nat, topN: int) {
    (forall i :: 0 <= i < |hits| ==> hits[i].index < documents) &&
    (forall i, j :: 0 <= i < j < |hits| ==> hits[i].index != hits[j].index) &&
    (forall i, j :: 0 <= i < j < |hits| ==> hits[i].score >= hits[j].score) &&
    (topN >= 0 ==> |hits| <= topN)
  }

  function HitFor(row: ChunkRow, score: real): SearchHit {
    SearchHit(row.id, row.documentId, row.content, score, row.title)
  }

  /** The rows the reranker picked, those that score high enough. */
  function Results(rows: Rows, hits: seq<RerankHit>, minScore: real): seq<SearchHit>
    requires forall i :: 0 <= i < |hits| ==> hits[i].index < |rows|
  {
    if hits == [] then []
    else
      var front := Results(rows, hits[..|hits| - 1], minScore);
      var hit := hits[|hits| - 1];
      if hit.score >= minScore then front + [HitFor(rows[hit.index], hit.score)] else front
  }

  /** A reranker that is honest about every request. */
  ghost predicate Trusted(rerank: Reranker) {
    forall docs, topN :: Honest(rerank(docs, topN), |docs|, topN)
  }

  ghost function Answer(rows: Rows, rerank: Reranker, limit: int, minScore: real): seq<SearchHit>
    requires Trusted(rerank)
  {
    if rows == [] then []
    else
      var hits := rerank(Contents(rows), limit);
      assert Honest(hits, |rows|, limit);
      Results(rows, hits, minScore)
  }

  function Window(rerankK: int, limit: int): int {
    if rerankK * 3 >= limit * 3 then rerankK * 3 else limit * 3
  }

  function Candidates(v: Rows, l: Rows, table: seq<AclEntry>, p: Principal, rerankK: int, limit: int): Rows {
    Chosen(Top(Ranked(v), Ranked(l), Window(rerankK, limit)), ById(v + l), table, p)
  }

  // ------------------------------------------------------------------ the pipeline

  /** The distinct documents behind the fused chunks. */
  function CandidateDocs(fused: seq<FusedHit>, byId: map<string, ChunkRow>): seq<string> {
    if fused == [] then []
    else
      var front := CandidateDocs(fused[..|fused| - 1], byId);
      var id := fused[|fused| - 1].id;
      if id in byId && byId[id].documentId != "" && byId[id].documentId !in front
      then front + [byId[id].documentId] else front
  }

  function InDocs(docs: seq<string>): AclEntry -> bool {
    (a: AclEntry) => a.documentId in docs
  }

  function Listed(aclsByDoc: map<string, seq<AclEntry>>, d: string): seq<AclEntry> {
    if d in aclsByDoc then aclsByDoc[d] else []
  }

  function Accessible(aclsByDoc: map<string, seq<AclEntry>>, p: Principal): string -> bool {
    (d: string) => CanAccess(Listed(aclsByDoc, d), p, false)
  }

  function AllowedChunks(fused: seq<FusedHit>, byId: map<string, ChunkRow>, allowed: seq<string>): Rows {
    if fused == [] then []
    else
      var front := AllowedChunks(fused[..|fused| - 1], byId, allowed);
      var id := fused[|fused| - 1].id;
      if id in byId && byId[id].documentId in allowed then front + [byId[id]] else front
  }

  /** Entries by document, each list in table order. */
  method GroupByDocument(acls: seq<AclEntry>) returns (m: map<string, seq<AclEntry>>)
    ensures forall d :: Listed(m, d) == Filter(acls, OfDoc(d))
  {
    m := map[];
    for i := 0 to |acls|
      invariant forall d :: Listed(m, d) == Filter(acls[..i], OfDoc(d))
    {
      var acl := acls[i];
      ghost var before := m;
      m := m[acl.documentId := Listed(m, acl.documentId) + [acl]];
      forall d ensures Listed(m, d) == Filter(acls[..i + 1], OfDoc(d)) {
        assert acls[..i + 1] == acls[..i] + [acl];
        assert Listed(before, d) == Filter(acls[..i], OfDoc(d));
        FilterSnoc(acls[..i], acl, OfDoc(d));
      }
    }
    assert acls[..|acls|] == acls;
  }

  lemma FilterSnoc<T(!new)>(s: seq<T>, x: T, keep: T -> bool)
    ensures Filter(s + [x], keep) == if keep(x) then Filter(s, keep) + [x] else Filter(s, keep)
  {
    FilterAppend(s, [x], keep);
    assert [x][1..] == [];
  }

  method RowsById(rows: Rows) returns (m: map<string, ChunkRow>)
    ensures m == ById(rows)
  {
    m := map[];
    for i := 0 to |rows|
      invariant m == ById(rows[..i])
    {
      assert rows[..i + 1][..i] == rows[..i];
      m := m[rows[i].id := rows[i]];
    }
    assert rows[..|rows|] == rows;
  }

  method AllowedRows(fused: seq<FusedHit>, byId: map<string, ChunkRow>, aclTable: seq<AclEntry>, principal: Principal)
    returns (rows: Rows)
    ensures rows == Chosen(fused, byId, aclTable, principal)
  {
    hide *;
    var docs := CandidateDocs(fused, byId);
    var aclsByDoc := GroupByDocument(Filter(aclTable, InDocs(docs)));
    AllowedAreChosen(fused, byId, aclTable, principal, aclsByDoc);
    var allowed := Filter(docs, Accessible(aclsByDoc, principal));
    rows := AllowedChunks(fused, byId, allowed);
  }

  method Search(vectorRows: Rows, lexicalRows: Rows, aclTable: seq<AclEntry>, principal: Principal,
                rerankK: int, limit: int, minScore: real, rerank: Reranker)
    returns (hits: seq<SearchHit>)
    requires Trusted(rerank)
    ensures hits == Answer(Candidates(vectorRows, lexicalRows, aclTable, principal, rerankK, limit), rerank, limit, minScore)
  {
    hide *;
    CandidatesAre(vectorRows, lexicalRows, aclTable, principal, rerankK, limit);
    var fused := ReciprocalRankFusion(Ranked(vectorRows), Ranked(lexicalRows), Window(rerankK, limit));
    var byId := RowsById(vectorRows + lexicalRows);
    var rows := AllowedRows(fused, byId, aclTable, principal);
    AnswerIs(rows, rerank, limit, minScore);
    if |rows| == 0 { return []; }
    var picked := rerank(Contents(rows), limit);
    TrustedIsHonest(rerank, Contents(rows), limit);
    hits := Results(rows, picked, minScore);
  }

  lemma CandidatesAre(v: Rows, l: Rows, table: seq<AclEntry>, p: Principal, rerankK: int, limit: int)
    ensures Candidates(v, l, table, p, rerankK, limit)
         == Chosen(Top(Ranked(v), Ranked(l), Window(rerankK, limit)), ById(v + l), table, p)
  {
    hide Chosen, Top, ById, Ranked;
  }

  lemma TrustedIsHonest(rerank: Reranker, documents: seq<string>, topN: int)
    requires Trusted(rerank)
    ensures var hits := rerank(documents, topN);
      Honest(hits, |documents|, topN) && forall i :: 0 <= i < |hits| ==> hits[i].index < |documents|
  {
  }

  lemma AnswerIs(rows: Rows, rerank: Reranker, limit: int, minScore: real)
    requires Trusted(rerank)
    ensures var hits := rerank(Contents(rows), limit);
      (forall i :: 0 <= i < |hits| ==> hits[i].index < |rows|) &&
      Answer(rows, rerank, limit, minScore) == if rows == [] then [] else Results(rows, hits, minScore)
  {
    hide Results;
    TrustedIsHonest(rerank, Contents(rows), limit);
  }

  // ----------------------------------- the pipeline checks access like the specification

  lemma {:induction false} FilterTwice(table: seq<AclEntry>, docs: seq<string>, d: string)
    requires d in docs
    ensures Filter(Filter(table, InDocs(docs)), OfDoc(d)) == Filter(table, OfDoc(d))
  {
    if table != [] {
      FilterTwice(table[1..], docs, d);
      var a, rest := table[0], Filter(table[1..], InDocs(docs));
      if InDocs(docs)(a) {
        FilterAppend([a], rest, OfDoc(d));
        assert [a][1..] == [];
      }
    }
  }

  lemma {:induction false} CandidateDocsAre(fused: seq<FusedHit>, byId: map<string, ChunkRow>)
    ensures forall d :: d in CandidateDocs(fused, byId) ==> d != ""
    ensures forall h :: h in fused && h.id in byId && byId[h.id].documentId != "" ==>
      byId[h.id].documentId in CandidateDocs(fused, byId)
  {
    if fused != [] {
      CandidateDocsAre(fused[..|fused| - 1], byId);
      assert forall h :: h in fused <==> h in fused[..|fused| - 1] || h == fused[|fused| - 1];
    }
  }

  /** Checking per document, on grouped entries of the candidates, is checking each chunk. */
  lemma AllowedAreChosen(fused: seq<FusedHit>, byId: map<string, ChunkRow>, table: seq<AclEntry>, p: Principal,
                         aclsByDoc: map<string, seq<AclEntry>>)
    requires var docs := CandidateDocs(fused, byId);
      forall d :: Listed(aclsByDoc, d) == Filter(Filter(table, InDocs(docs)), OfDoc(d))
    ensures var docs := CandidateDocs(fused, byId);
      AllowedChunks(fused, byId, Filter(docs, Accessible(aclsByDoc, p))) == Chosen(fused, byId, table, p)
  {
    hide CandidateDocs, AllowedChunks, Chosen, CanAccess;
    var docs := CandidateDocs(fused, byId);
    var allowed := Filter(docs, Accessible(aclsByDoc, p));
    CandidateDocsAre(fused, byId);
    forall h | h in fused && h.id in byId
      ensures byId[h.id].documentId in allowed <==> Readable(table, p, byId[h.id].documentId)
    {
      var d := byId[h.id].documentId;
      if d in docs { FilterTwice(table, docs, d); }
    }
    SameChoice(fused, byId, table, p, allowed);
  }

  lemma {:induction false} SameChoice(fused: seq<FusedHit>, byId: map<string, ChunkRow>, table: seq<AclEntry>,
                                      p: Principal, allowed: seq<string>)
    requires forall h :: h in fused && h.id in byId ==>
      (byId[h.id].documentId in allowed <==> Readable(table, p, byId[h.id].documentId))
    ensures AllowedChunks(fused, byId, allowed) == Chosen(fused, byId, table, p)
  {
    hide Readable;
    if fused != [] {
      SameChoice(fused[..|fused| - 1], byId, table, p, allowed);
      assert fused[|fused| - 1] in fused;
    }
  }

  // ------------------------------------------------------------------------- safety

  function RowId(row: ChunkRow): string {
    row.id
  }

  function ChunkIdOf(hit: SearchHit): string {
    hit.chunkId
  }

  /** Candidates have distinct ids and are readable rows of the two lists. */
  lemma {:induction false} ChosenAreReadable(fused: seq<FusedHit>, rows: Rows, table: seq<AclEntry>, p: Principal)
    requires Sorting.DistinctBy(fused, IdOf)
    ensures var chosen := Chosen(fused, ById(rows), table, p);
      Sorting.DistinctBy(chosen, RowId) &&
      forall row :: row in chosen ==>
        row in rows && Readable(table, p, row.documentId) && exists h :: h in fused && h.id == row.id
  {
    hide Readable, ById;
    if fused != [] {
      var front, last := fused[..|fused| - 1], fused[|fused| - 1];
      ChosenAreReadable(front, rows, table, p);
      var before, chosen := Chosen(front, ById(rows), table, p), Chosen(fused, ById(rows), table, p);
      forall row | row in before ensures row.id != last.id {
        var h :| h in front && h.id == row.id;
        var i :| 0 <= i < |front| && front[i] == h;
        assert IdOf(fused[i]) != IdOf(fused[|fused| - 1]);
      }
      forall row | row in chosen
        ensures row in rows && Readable(table, p, row.documentId) && exists h :: h in fused && h.id == row.id
      {
        if row in before {
          var h :| h in front && h.id == row.id;
          assert h in fused;
        } else {
          assert last in fused && last.id == row.id;
        }
      }
    }
  }

  /** Each result comes from one of the reranker's hits that reach the threshold. */
  predicate FromHit(rows: Rows, hits: seq<RerankHit>, minScore: real, r: SearchHit)
    requires forall i :: 0 <= i < |hits| ==> hits[i].index < |rows|
  {
    exists i :: 0 <= i < |hits| && hits[i].score >= minScore && r == HitFor(rows[hits[i].index], hits[i].score)
  }

  lemma {:induction false} ResultsAreSafe(rows: Rows, hits: seq<RerankHit>, topN: int, minScore: real)
    requires Honest(hits, |rows|, topN) && Sorting.DistinctBy(rows, RowId)
    ensures var rs := Results(rows, hits, minScore);
      |rs| <= |hits| && Sorting.DistinctBy(rs, ChunkIdOf) &&
      (forall r :: r in rs ==> FromHit(rows, hits, minScore, r)) &&
      forall i, j :: 0 <= i < j < |rs| ==> rs[i].score >= rs[j].score
    decreases |hits|
  {
    hide FromHit;
    if hits != [] {
      var front, last := hits[..|hits| - 1], hits[|hits| - 1];
      ResultsAreSafe(rows, front, topN, minScore);
      var before := Results(rows, front, minScore);
      forall r | r in before
        ensures r.chunkId != rows[last.index].id && r.score >= last.score && FromHit(rows, hits, minScore, r)
      {
        EarlierHit(rows, hits, topN, minScore, r);
      }
      if last.score >= minScore { LastHit(rows, hits, minScore); }
    }
  }

  lemma EarlierHit(rows: Rows, hits: seq<RerankHit>, topN: int, minScore: real, r: SearchHit)
    requires Honest(hits, |rows|, topN) && Sorting.DistinctBy(rows, RowId) && hits != []
    requires FromHit(rows, hits[..|hits| - 1], minScore, r)
    ensures var last := hits[|hits| - 1];
      r.chunkId != rows[last.index].id && r.score >= last.score && FromHit(rows, hits, minScore, r)
  {
    var i := HitBehind(rows, hits[..|hits| - 1], minScore, r);
    DifferentRows(rows, hits[i].index, hits[|hits| - 1].index);
  }

  lemma LastHit(rows: Rows, hits: seq<RerankHit>, minScore: real)
    requires forall i :: 0 <= i < |hits| ==> hits[i].index < |rows|
    requires hits != [] && hits[|hits| - 1].score >= minScore
    ensures var last := hits[|hits| - 1];
      FromHit(rows, hits, minScore, HitFor(rows[last.index], last.score))
  {
  }

  lemma DifferentRows(rows: Rows, i: nat, j: nat)
    requires Sorting.DistinctBy(rows, RowId) && i < |rows| && j < |rows| && i != j
    ensures rows[i].id != rows[j].id
  {
    assert RowId(rows[if i < j then i else j]) != RowId(rows[if i < j then j else i]);
  }

  /** A hit the pipeline may return: good enough, and from a readable row of the two lists. */
  predicate Safe(v: Rows, l: Rows, table: seq<AclEntry>, p: Principal, minScore: real, r: SearchHit) {
    r.score >= minScore && Readable(table, p, r.documentId) &&
    exists row :: row in v + l && r == HitFor(row, r.score)
  }

  lemma ResultsOfCandidates(v: Rows, l: Rows, table: seq<AclEntry>, p: Principal, rerankK: int, limit: nat,
                            minScore: real, hits: seq<RerankHit>)
    requires Honest(hits, |Candidates(v, l, table, p, rerankK, limit)|, limit)
    ensures var rs := Results(Candidates(v, l, table, p, rerankK, limit), hits, minScore);
      |rs| <= limit && Sorting.DistinctBy(rs, ChunkIdOf) &&
      (forall i, j :: 0 <= i < j < |rs| ==> rs[i].score >= rs[j].score) &&
      forall r :: r in rs ==> Safe(v, l, table, p, minScore, r)
  {
    hide Results, Chosen, ById, Readable, Top, FromHit;
    var fused := Top(Ranked(v), Ranked(l), Window(rerankK, limit));
    var rows := Candidates(v, l, table, p, rerankK, limit);
    TopIsDistinct(Ranked(v), Ranked(l), Window(rerankK, limit));
    ChosenAreReadable(fused, v + l, table, p);
    ResultsAreSafe(rows, hits, limit, minScore);
    forall r | r in Results(rows, hits, minScore) ensures Safe(v, l, table, p, minScore, r) {
      assert FromHit(rows, hits, minScore, r);
      var i := HitBehind(rows, hits, minScore, r);
      var row := rows[hits[i].index];
      assert row in rows && row in v + l && r == HitFor(row, r.score);
    }
  }

  /**
   * Search safety: with an honest reranker, the answer has distinct chunk ids, is
   * at most `limit` long, does not increase in score, and every hit reaches the
   * threshold and comes from a row of the lists whose document the principal may
   * read on its own grants.
   */
  lemma SearchIsSafe(v: Rows, l: Rows, table: seq<AclEntry>, p: Principal, rerankK: int, limit: nat, minScore: real,
                     rerank: Reranker)
    requires Trusted(rerank)
    ensures var rs := Answer(Candidates(v, l, table, p, rerankK, limit), rerank, limit, minScore);
      |rs| <= limit && Sorting.DistinctBy(rs, ChunkIdOf) &&
      (forall i, j :: 0 <= i < j < |rs| ==> rs[i].score >= rs[j].score) &&
      forall r :: r in rs ==> Safe(v, l, table, p, minScore, r)
  {
    hide Results, Candidates, Honest, Safe, Trusted, Answer;
    var rows := Candidates(v, l, table, p, rerankK, limit);
    AnswerIs(rows, rerank, limit, minScore);
    if rows != [] {
      TrustedIsHonest(rerank, Contents(rows), limit);
      ResultsOfCandidates(v, l, table, p, rerankK, limit, minScore, rerank(Contents(rows), limit));
    }
  }

  lemma HitBehind(rows: Rows, hits: seq<RerankHit>, minScore: real, r: SearchHit) returns (i: nat)
    requires forall i :: 0 <= i < |hits| ==> hits[i].index < |rows|
    requires FromHit(rows, hits, minScore, r)
    ensures i < |hits| && hits[i].score >= minScore && r == HitFor(rows[hits[i].index], hits[i].score)
  {
    i :| 0 <= i < |hits| && hits[i].score >= minScore && r == HitFor(rows[hits[i].index], hits[i].score);
  }

  lemma TopIsDistinct(v: Hits, l: Hits, limit: int)
    ensures Sorting.DistinctBy(Top(v, l, limit), IdOf)
  {
    hide Fused, Sorting.Sort;
    FusedShape(v, l);
    Sorting.SortDistinct(Fused(v, l), Descending, IdOf);
  }

  // ---------------------------------------------------------------- the fake reranker

  function Scored(scores: seq<real>): (r: seq<RerankHit>)
    ensures |r| == |scores|
    ensures forall i :: 0 <= i < |scores| ==> r[i] == RerankHit(i, scores[i])
  {
    if scores == [] then []
    else Scored(scores[..|scores| - 1]) + [RerankHit(|scores| - 1, scores[|scores| - 1])]
  }

  function ByScore(h: RerankHit): real {
    -h.score
  }

  function IndexOf(h: RerankHit): nat {
    h.index
  }

  /** Lexical scoring of each document, sorted, cut to `topN`. */
  function FakeRerank(relevance: string -> real, documents: seq<string>, topN: int): seq<RerankHit> {
    Slice(Sorting.Sort(Scored(Relevances(relevance, documents)), ByScore), topN)
  }

  function Relevances(relevance: string -> real, documents: seq<string>): (r: seq<real>)
    ensures |r| == |documents|
  {
    if documents == [] then []
    else Relevances(relevance, documents[..|documents| - 1]) + [relevance(documents[|documents| - 1])]
  }

  /** The built-in reranker is honest, whatever its scoring. */
  lemma FakeRerankIsHonest(relevance: string -> real, documents: seq<string>, topN: int)
    ensures Honest(FakeRerank(relevance, documents, topN), |documents|, topN)
  {
    hide Sorting.Sort, Relevances;
    var scored := Scored(Relevances(relevance, documents));
    var sorted := Sorting.Sort(scored, ByScore);
    var hits := FakeRerank(relevance, documents, topN);
    Sorting.SortIsStable(scored, ByScore);
    Sorting.SortDistinct(scored, ByScore, IndexOf);
    forall i | 0 <= i < |hits| ensures hits[i].index < |documents| {
      assert sorted[i] in sorted;
      Sorting.SortMembers(scored, ByScore, sorted[i]);
    }
    forall i, j | 0 <= i < j < |hits| ensures hits[i].index != hits[j].index && hits[i].score >= hits[j].score {
      assert IndexOf(sorted[i]) != IndexOf(sorted[j]) && ByScore(sorted[i]) <= ByScore(sorted[j]);
    }
  }

  /** So the pipeline's demand on its reranker is met by it. */
  lemma FakeRerankIsTrusted(relevance: string -> real)
    ensures Trusted((docs: seq<string>, topN: int) => FakeRerank(relevance, docs, topN))
  {
    hide FakeRerank, Honest;
    forall docs: seq<string>, topN: int
      ensures Honest(FakeRerank(relevance, docs, topN), |docs|, topN)
    {
      FakeRerankIsHonest(relevance, docs, topN);
    }
  }
}
