/** What a search returns: which chunks are candidates, which score each answer carries, and that none is missing. */
module SearchAnswers {
  import opened Text
  import opened Acl
  import opened Fusion
  import opened Search
  import Sorting

  // --------------------------------------------------------------------- candidates

  /** The row that counts for its id: the last one of the two lists. */
  ghost predicate IsLastRow(rows: Rows, row: ChunkRow) {
    exists k :: 0 <= k < |rows| && rows[k] == row && forall j :: k < j < |rows| ==> rows[j].id != row.id
  }

  /** Nothing is listed for the document, or some entry of the table grants it to the principal. */
  ghost predicate MayRead(table: seq<AclEntry>, p: Principal, d: string) {
    d != "" &&
    ((forall a :: a in table ==> a.documentId != d) || exists a :: a in table && a.documentId == d && Grants(a, p))
  }

  /** Among the fused chunks, and readable. */
  ghost predicate IsCandidate(fused: seq<FusedHit>, rows: Rows, table: seq<AclEntry>, p: Principal, row: ChunkRow) {
    (exists h :: h in fused && h.id == row.id) && IsLastRow(rows, row) && MayRead(table, p, row.documentId)
  }

  lemma {:induction false} ByIdIsLast(rows: Rows, row: ChunkRow)
    ensures row.id in ById(rows) && ById(rows)[row.id] == row <==> IsLastRow(rows, row)
  {
    if rows != [] {
      var n := |rows| - 1;
      ByIdIsLast(rows[..n], row);
      if rows[n].id == row.id {
        assert IsLastRow(rows, rows[n]);
      } else {
        LastOfMore(rows, row);
      }
    }
  }

  lemma LastOfMore(rows: Rows, row: ChunkRow)
    requires rows != [] && rows[|rows| - 1].id != row.id
    ensures IsLastRow(rows, row) <==> IsLastRow(rows[..|rows| - 1], row)
  {
    var front := rows[..|rows| - 1];
    if IsLastRow(rows, row) {
      var k :| 0 <= k < |rows| && rows[k] == row && forall j :: k < j < |rows| ==> rows[j].id != row.id;
      assert front[k] == row;
    }
    if IsLastRow(front, row) {
      var k :| 0 <= k < |front| && front[k] == row && forall j :: k < j < |front| ==> front[j].id != row.id;
      assert rows[k] == row;
      forall j | k < j < |rows| ensures rows[j].id != row.id {
        if j < |front| { assert front[j].id != row.id; }
      }
    }
  }

  lemma ReadableIs(table: seq<AclEntry>, p: Principal, d: string)
    ensures Readable(table, p, d) <==> MayRead(table, p, d)
  {
    hide Grants;
    var listed := Filter(table, OfDoc(d));
    AccessRule(listed, p, false);
    if listed != [] { assert listed[0] in table && listed[0].documentId == d; }
    assert forall a :: a in listed <==> a in table && a.documentId == d;
  }

  predicate IsAt(fused: seq<FusedHit>, a: int, id: string) {
    0 <= a < |fused| && fused[a].id == id
  }

  /** The rows come in the order of the fused hits. */
  ghost predicate InFusedOrder(fused: seq<FusedHit>, rows: Rows) {
    forall i, j, a, b :: 0 <= i < j < |rows| && IsAt(fused, a, rows[i].id) && IsAt(fused, b, rows[j].id) ==> a < b
  }

  lemma {:induction false} ChosenAre(fused: seq<FusedHit>, rows: Rows, table: seq<AclEntry>, p: Principal)
    requires Sorting.DistinctBy(fused, IdOf)
    ensures var chosen := Chosen(fused, ById(rows), table, p);
      (forall row :: row in chosen <==> IsCandidate(fused, rows, table, p, row)) && InFusedOrder(fused, chosen)
  {
    hide Readable, ById, MayRead, IsLastRow;
    if fused != [] {
      var n := |fused| - 1;
      var front, last := fused[..n], fused[n];
      ChosenAre(front, rows, table, p);
      var before, chosen := Chosen(front, ById(rows), table, p), Chosen(fused, ById(rows), table, p);
      LastIsAdded(fused, rows, table, p);
      forall row ensures row in chosen <==> IsCandidate(fused, rows, table, p, row) {
        assert row in before <==> IsCandidate(front, rows, table, p, row);
        FusedFront(fused, row.id);
      }
      OrderOfMore(fused, rows, table, p);
    }
  }

  lemma FusedFront(fused: seq<FusedHit>, id: string)
    requires fused != []
    ensures (exists h :: h in fused && h.id == id) <==>
      fused[|fused| - 1].id == id || exists h :: h in fused[..|fused| - 1] && h.id == id
  {
    assert forall h :: h in fused <==> h in fused[..|fused| - 1] || h == fused[|fused| - 1];
    if fused[|fused| - 1].id == id { assert fused[|fused| - 1] in fused; }
  }

  /** The row the last fused hit adds, if any. */
  lemma LastIsAdded(fused: seq<FusedHit>, rows: Rows, table: seq<AclEntry>, p: Principal)
    requires fused != []
    ensures var n := |fused| - 1;
      var before, chosen := Chosen(fused[..n], ById(rows), table, p), Chosen(fused, ById(rows), table, p);
      forall row :: row in chosen <==>
        row in before || (row.id == fused[n].id && IsLastRow(rows, row) && MayRead(table, p, row.documentId))
  {
    hide Readable, MayRead, IsLastRow;
    var n := |fused| - 1;
    var before, chosen := Chosen(fused[..n], ById(rows), table, p), Chosen(fused, ById(rows), table, p);
    forall row
      ensures row in chosen <==>
        row in before || (row.id == fused[n].id && IsLastRow(rows, row) && MayRead(table, p, row.documentId))
    {
      ByIdIsLast(rows, row);
      ReadableIs(table, p, row.documentId);
    }
  }

  lemma OrderOfMore(fused: seq<FusedHit>, rows: Rows, table: seq<AclEntry>, p: Principal)
    requires fused != [] && Sorting.DistinctBy(fused, IdOf)
    requires var front := fused[..|fused| - 1];
      var before := Chosen(front, ById(rows), table, p);
      InFusedOrder(front, before) && forall row :: row in before ==> exists h :: h in front && h.id == row.id
    ensures InFusedOrder(fused, Chosen(fused, ById(rows), table, p))
  {
    hide Readable;
    var n := |fused| - 1;
    var front := fused[..n];
    var before, chosen := Chosen(front, ById(rows), table, p), Chosen(fused, ById(rows), table, p);
    forall i, j, a, b | 0 <= i < j < |chosen| && IsAt(fused, a, chosen[i].id) && IsAt(fused, b, chosen[j].id)
      ensures a < b
    {
      assert i < |before| && chosen[i] == before[i];
      FrontPlace(fused, before[i].id, a);
      if j < |before| {
        FrontPlace(fused, before[j].id, b);
        assert IsAt(front, a, before[i].id) && IsAt(front, b, before[j].id);
      } else {
        SamePlace(fused, b, n);
      }
    }
  }

  lemma FrontPlace(fused: seq<FusedHit>, id: string, a: nat)
    requires a < |fused| && fused[a].id == id && Sorting.DistinctBy(fused, IdOf)
    requires exists h :: h in fused[..|fused| - 1] && h.id == id
    ensures a < |fused| - 1
  {
    var front := fused[..|fused| - 1];
    var h :| h in front && h.id == id;
    var i :| 0 <= i < |front| && front[i] == h;
    SamePlace(fused, a, i);
  }

  lemma SamePlace(fused: seq<FusedHit>, a: nat, b: nat)
    requires a < |fused| && b < |fused| && fused[a].id == fused[b].id && Sorting.DistinctBy(fused, IdOf)
    ensures a == b
  {
    assert forall i, j :: 0 <= i < j < |fused| ==> IdOf(fused[i]) != IdOf(fused[j]);
  }

  /** How many fused hits are considered. */
  function Considered(rerankK: int, limit: int): int {
    if rerankK >= limit then 3 * rerankK else 3 * limit
  }

  /**
   * No readable chunk is lost before reranking: the candidates are exactly the
   * fused chunks, in fused order, whose document the principal may read.
   */
  lemma CandidatesAreTheReadable(v: Rows, l: Rows, table: seq<AclEntry>, p: Principal, rerankK: int, limit: int)
    ensures var fused := Top(Ranked(v), Ranked(l), Considered(rerankK, limit));
      var rows := Candidates(v, l, table, p, rerankK, limit);
      (forall row :: row in rows <==> IsCandidate(fused, v + l, table, p, row)) && InFusedOrder(fused, rows) &&
      Sorting.DistinctBy(rows, RowId)
  {
    hide Chosen, Top, Ranked, IsCandidate, InFusedOrder, Readable;
    var fused := Top(Ranked(v), Ranked(l), Considered(rerankK, limit));
    assert Considered(rerankK, limit) == Window(rerankK, limit);
    TopIsDistinct(Ranked(v), Ranked(l), Considered(rerankK, limit));
    ChosenAre(fused, v + l, table, p);
    ChosenAreReadable(fused, v + l, table, p);
  }

  // ------------------------------------------------------------------------- answers

  /** The texts handed to the reranker: document `i` is the content of row `i`. */
  ghost predicate AreContents(docs: seq<string>, rows: Rows) {
    |docs| == |rows| && forall i :: 0 <= i < |rows| ==> docs[i] == rows[i].content
  }

  /** The answer for a pick: the picked row, with the score the reranker gave to that row's content. */
  ghost predicate IsAnswer(rows: Rows, docs: seq<string>, pick: RerankHit, r: SearchHit) {
    && pick.index < |rows| == |docs| && r.score == pick.score && r.content == docs[pick.index]
    && ChunkRow(r.chunkId, r.documentId, r.content, r.title) == rows[pick.index]
  }

  /** The answers are those of the picks, in order, as far as the scores reach the threshold. */
  ghost predicate AnswersPicks(rows: Rows, docs: seq<string>, picked: seq<RerankHit>, minScore: real, rs: seq<SearchHit>) {
    && AreContents(docs, rows) && |rs| <= |picked|
    && (forall k :: 0 <= k < |rs| ==> picked[k].score >= minScore && IsAnswer(rows, docs, picked[k], rs[k]))
    && (forall k :: |rs| <= k < |picked| ==> picked[k].score < minScore)
  }

  lemma {:induction false} ContentsAre(rows: Rows)
    ensures AreContents(Contents(rows), rows)
  {
    if rows != [] {
      var n := |rows| - 1;
      ContentsAre(rows[..n]);
      forall i | 0 <= i < |rows| ensures Contents(rows)[i] == rows[i].content {
        if i < n { assert Contents(rows[..n])[i] == rows[..n][i].content; }
      }
    }
  }

  lemma {:induction false} ResultsAnswerPicks(rows: Rows, docs: seq<string>, picked: seq<RerankHit>, topN: int, minScore: real)
    requires Honest(picked, |rows|, topN) && AreContents(docs, rows)
    ensures AnswersPicks(rows, docs, picked, minScore, Results(rows, picked, minScore))
    decreases |picked|
  {
    if picked != [] {
      var n := |picked| - 1;
      var front := picked[..n];
      HonestFront(picked, |rows|, topN);
      ResultsAnswerPicks(rows, docs, front, -1, minScore);
      var before := Results(rows, front, minScore);
      if picked[n].score >= minScore {
        forall k: nat | k < n ensures ReachesAt(front, k, minScore) {
          assert front[k] == picked[k];
        }
        AllReach(front, |before|, minScore);
      }
    }
  }

  lemma HonestFront(picked: seq<RerankHit>, documents: nat, topN: int)
    requires picked != [] && Honest(picked, documents, topN)
    ensures Honest(picked[..|picked| - 1], documents, -1)
  {
  }

  predicate ReachesAt(picked: seq<RerankHit>, k: nat, minScore: real) {
    k < |picked| ==> picked[k].score >= minScore
  }

  lemma AllReach(picked: seq<RerankHit>, m: nat, minScore: real)
    requires m <= |picked| && forall k: nat :: k < |picked| ==> ReachesAt(picked, k, minScore)
    requires forall k :: m <= k < |picked| ==> picked[k].score < minScore
    ensures m == |picked|
  {
    assert ReachesAt(picked, m, minScore);
  }

  /**
   * The answer is the reranker's verdict on the candidates' own contents: each
   * hit carries the score given to its content, in the reranker's order, and
   * every pick that reaches the threshold is there.
   */
  lemma AnswerIsTheVerdict(rows: Rows, rerank: Reranker, limit: int, minScore: real) returns (docs: seq<string>)
    requires Trusted(rerank)
    ensures rows == [] ==> Answer(rows, rerank, limit, minScore) == []
    ensures rows != [] ==> AnswersPicks(rows, docs, rerank(docs, limit), minScore, Answer(rows, rerank, limit, minScore))
  {
    hide Results, Contents, Honest, AnswersPicks, Trusted;
    docs := Contents(rows);
    AnswerIs(rows, rerank, limit, minScore);
    ContentsAre(rows);
    TrustedIsHonest(rerank, docs, limit);
    if rows != [] { ResultsAnswerPicks(rows, docs, rerank(docs, limit), limit, minScore); }
  }

  // ---------------------------------------------------------------------- completeness

  /** The picks are the best of all documents: each with its score, as many as allowed, and none left out scores more. */
  ghost predicate BestOf(score: string -> real, docs: seq<string>, topN: nat, picked: seq<RerankHit>) {
    && |picked| == (if topN < |docs| then topN else |docs|)
    && (forall k :: 0 <= k < |picked| ==> picked[k].index < |docs| && picked[k].score == score(docs[picked[k].index]))
    && (forall i, k :: 0 <= i < |docs| && 0 <= k < |picked| && !Picked(picked, i) ==> score(docs[i]) <= picked[k].score)
    && (forall i :: 0 <= i < |docs| && |docs| <= topN ==> Picked(picked, i))
  }

  ghost predicate Picked(picked: seq<RerankHit>, i: nat) {
    exists k: nat :: IsPick(picked, k, i)
  }

  predicate IsPick(picked: seq<RerankHit>, k: nat, i: nat) {
    k < |picked| && picked[k].index == i
  }

  /** A reranker that scores every document by its text and returns the best. */
  ghost predicate RanksBy(rerank: Reranker, score: string -> real) {
    Trusted(rerank) && forall docs, topN: nat :: BestOf(score, docs, topN, rerank(docs, topN))
  }

  /** A row is answered with its own score. */
  predicate Answered(rs: seq<SearchHit>, row: ChunkRow, score: real) {
    SearchHit(row.id, row.documentId, row.content, score, row.title) in rs
  }

  lemma PicksAreComplete(rows: Rows, docs: seq<string>, picked: seq<RerankHit>, score: string -> real, limit: nat,
                         minScore: real, rs: seq<SearchHit>, i: nat)
    requires i < |rows| && AnswersPicks(rows, docs, picked, minScore, rs) && BestOf(score, docs, limit, picked)
    requires score(rows[i].content) >= minScore
    ensures Answered(rs, rows[i], score(rows[i].content)) ||
      (|rs| == limit < |rows| && forall r :: r in rs ==> r.score >= score(rows[i].content))
  {
    if Picked(picked, i) {
      var k: nat :| IsPick(picked, k, i);
      assert picked[k].score == score(docs[i]);
      assert k < |rs|;
      assert IsAnswer(rows, docs, picked[k], rs[k]);
      assert rs[k] in rs;
    } else {
      forall k: nat | k < |picked| ensures picked[k].score >= score(docs[i]) && ReachesAt(picked, k, minScore) {
      }
      AllReach(picked, |rs|, minScore);
      forall r | r in rs ensures r.score >= score(rows[i].content) {
        var k :| 0 <= k < |rs| && rs[k] == r;
        assert IsAnswer(rows, docs, picked[k], rs[k]);
      }
    }
  }

  /**
   * Completeness: with a reranker that scores texts, every answer carries the score
   * of its own text, and every readable fused chunk that scores high enough is
   * answered, unless `limit` answers score at least as much.
   */
  lemma SearchIsComplete(v: Rows, l: Rows, table: seq<AclEntry>, p: Principal, rerankK: int, limit: nat, minScore: real,
                         rerank: Reranker, score: string -> real)
    requires RanksBy(rerank, score)
    ensures var fused := Top(Ranked(v), Ranked(l), Considered(rerankK, limit));
      var rs := Answer(Candidates(v, l, table, p, rerankK, limit), rerank, limit, minScore);
      (forall r :: r in rs ==> r.score == score(r.content)) && Complete(fused, v + l, table, p, limit, minScore, score, rs)
  {
    hide Candidates, Answer, Top, Ranked, IsCandidate, InFusedOrder, AnswersPicks, BestOf, Answered, Trusted;
    var fused := Top(Ranked(v), Ranked(l), Considered(rerankK, limit));
    var rows := Candidates(v, l, table, p, rerankK, limit);
    var rs := Answer(rows, rerank, limit, minScore);
    CandidatesAreTheReadable(v, l, table, p, rerankK, limit);
    var docs := AnswerIsTheVerdict(rows, rerank, limit, minScore);
    if rows != [] {
      BestScores(rows, docs, rerank(docs, limit), score, limit, minScore, rs);
      forall row | IsCandidate(fused, v + l, table, p, row) && score(row.content) >= minScore
        ensures Answered(rs, row, score(row.content)) || (|rs| == limit && forall r :: r in rs ==> r.score >= score(row.content))
      {
        var i :| 0 <= i < |rows| && rows[i] == row;
        PicksAreComplete(rows, docs, rerank(docs, limit), score, limit, minScore, rs, i);
      }
    }
  }

  ghost predicate Complete(fused: seq<FusedHit>, rows: Rows, table: seq<AclEntry>, p: Principal, limit: nat, minScore: real,
                           score: string -> real, rs: seq<SearchHit>)
  {
    forall row :: IsCandidate(fused, rows, table, p, row) && score(row.content) >= minScore ==>
      Answered(rs, row, score(row.content)) || (|rs| == limit && forall r :: r in rs ==> r.score >= score(row.content))
  }

  lemma BestScores(rows: Rows, docs: seq<string>, picked: seq<RerankHit>, score: string -> real, limit: nat, minScore: real,
                   rs: seq<SearchHit>)
    requires AnswersPicks(rows, docs, picked, minScore, rs) && BestOf(score, docs, limit, picked)
    ensures forall r :: r in rs ==> r.score == score(r.content)
  {
    forall r | r in rs ensures r.score == score(r.content) {
      var k :| 0 <= k < |rs| && rs[k] == r;
      assert IsAnswer(rows, docs, picked[k], rs[k]);
    }
  }

  // ---------------------------------------------------------------- the built-in reranker

  lemma {:induction false} RelevancesAre(relevance: string -> real, docs: seq<string>, i: nat)
    requires i < |docs|
    ensures Relevances(relevance, docs)[i] == relevance(docs[i])
  {
    if i < |docs| - 1 { RelevancesAre(relevance, docs[..|docs| - 1], i); }
  }

  /** The built-in reranker scores each document by its own text and returns the best of all. */
  lemma FakeRerankIsBest(relevance: string -> real, docs: seq<string>, topN: nat)
    ensures BestOf(relevance, docs, topN, FakeRerank(relevance, docs, topN))
  {
    hide Sorting.Sort, Sorting.Class, Relevances, Scored;
    var scored := Scored(Relevances(relevance, docs));
    var sorted := Sorting.Sort(scored, ByScore);
    var picked := FakeRerank(relevance, docs, topN);
    Sorting.SortIsStable(scored, ByScore);
    forall i | 0 <= i < |docs| ensures scored[i] == RerankHit(i, relevance(docs[i])) {
      RelevancesAre(relevance, docs, i);
    }
    forall k | 0 <= k < |sorted|
      ensures sorted[k].index < |docs| && sorted[k].score == relevance(docs[sorted[k].index])
    {
      Sorting.SortMembers(scored, ByScore, sorted[k]);
      var i :| 0 <= i < |scored| && scored[i] == sorted[k];
    }
    forall i | 0 <= i < |docs| && !Picked(picked, i)
      ensures |picked| < |docs|
      ensures forall k :: 0 <= k < |picked| ==> relevance(docs[i]) <= picked[k].score
    {
      Sorting.SortMembers(scored, ByScore, scored[i]);
      var j :| 0 <= j < |sorted| && sorted[j] == scored[i];
      assert !IsPick(picked, j, i);
      forall k | 0 <= k < |picked| ensures relevance(docs[i]) <= picked[k].score {
        assert picked[k] == sorted[k] && ByScore(sorted[k]) <= ByScore(sorted[j]);
      }
    }
  }

  lemma FakeRerankRanks(relevance: string -> real)
    ensures RanksBy((docs: seq<string>, topN: int) => FakeRerank(relevance, docs, topN), relevance)
  {
    hide FakeRerank, BestOf, Trusted;
    FakeRerankIsTrusted(relevance);
    forall docs: seq<string>, topN: nat
      ensures BestOf(relevance, docs, topN, FakeRerank(relevance, docs, topN))
    {
      FakeRerankIsBest(relevance, docs, topN);
    }
  }
}
