/** Reciprocal rank fusion of two ranked lists. */
module Fusion {
  import opened Text
  import Sorting

  const RRF_K := 60

  datatype RankedHit = RankedHit(id: string, rank: nat)

  datatype FusedHit = FusedHit(id: string, score: real, vectorRank: Option<nat>, lexicalRank: Option<nat>)

  type Hits = seq<RankedHit>

  function Share(rank: nat): real {
    1.0 / (RRF_K + rank) as real
  }

  // --------------------------------------------------------- what fusion should yield

  /** The sum of the shares of all occurrences of `id`. */
  function Credit(hits: Hits, id: string): real {
    if hits == [] then 0.0
    else Credit(hits[..|hits| - 1], id) + if hits[|hits| - 1].id == id then Share(hits[|hits| - 1].rank) else 0.0
  }

  /** The rank of the last occurrence. */
  function LastRank(hits: Hits, id: string): Option<nat> {
    if hits == [] then None
    else if hits[|hits| - 1].id == id then Some(hits[|hits| - 1].rank)
    else LastRank(hits[..|hits| - 1], id)
  }

  function Entry(v: Hits, l: Hits, id: string): FusedHit {
    FusedHit(id, Credit(v, id) + Credit(l, id), LastRank(v, id), LastRank(l, id))
  }

  function Ids(hits: Hits): (r: seq<string>)
    ensures |r| == |hits|
  {
    if hits == [] then [] else Ids(hits[..|hits| - 1]) + [hits[|hits| - 1].id]
  }

  /** Each id once, where it occurs first. */
  function Unique(ids: seq<string>): seq<string> {
    if ids == [] then []
    else
      var front := Unique(ids[..|ids| - 1]);
      if ids[|ids| - 1] in front then front else front + [ids[|ids| - 1]]
  }

  function Entries(v: Hits, l: Hits, ids: seq<string>): (r: seq<FusedHit>)
    ensures |r| == |ids|
  {
    if ids == [] then [] else Entries(v, l, ids[..|ids| - 1]) + [Entry(v, l, ids[|ids| - 1])]
  }

  /** One entry per id of either list, in order of first occurrence. */
  function Fused(v: Hits, l: Hits): seq<FusedHit> {
    Entries(v, l, Unique(Ids(v) + Ids(l)))
  }

  function Descending(h: FusedHit): real {
    -h.score
  }

  /** JavaScript `s.slice(0, limit)`. */
  function Slice<T>(s: seq<T>, limit: int): (r: seq<T>)
    ensures r <= s
    ensures limit >= 0 ==> |r| == if limit < |s| then limit else |s|
  {
    if limit >= 0 then s[..if limit < |s| then limit else |s|]
    else s[..if |s| + limit > 0 then |s| + limit else 0]
  }

  function Top(v: Hits, l: Hits, limit: int): seq<FusedHit> {
    Slice(Sorting.Sort(Fused(v, l), Descending), limit)
  }

  // ------------------------------------------------------------------- the two loops

  /** An insertion-ordered map is a map and the order of its keys. */
  function Get(m: map<string, FusedHit>, id: string): FusedHit {
    if id in m then m[id] else FusedHit(id, 0.0, None, None)
  }

  function Values(order: seq<string>, m: map<string, FusedHit>): seq<FusedHit>
    requires forall id :: id in order ==> id in m
  {
    if order == [] then [] else Values(order[..|order| - 1], m) + [m[order[|order| - 1]]]
  }

  method ReciprocalRankFusion(vectorHits: Hits, lexicalHits: Hits, limit: int) returns (top: seq<FusedHit>)
    ensures top == Top(vectorHits, lexicalHits, limit)
  {
    hide Credit, LastRank, Ids, Unique, Entries, Share;
    var scores: map<string, FusedHit>, order: seq<string> := map[], [];
    NothingYet();
    for i := 0 to |vectorHits|
      invariant forall id :: Get(scores, id) == Entry(vectorHits[..i], [], id)
      invariant order == Unique(Ids(vectorHits[..i])) && forall id :: id in order <==> id in scores
    {
      var hit := vectorHits[i];
      assert vectorHits[..i + 1] == vectorHits[..i] + [hit];
      IdsSnoc(vectorHits[..i], hit);
      UniqueSnoc(Ids(vectorHits[..i]), hit.id);
      var existing := Get(scores, hit.id);
      existing := existing.(score := existing.score + Share(hit.rank), vectorRank := Some(hit.rank));
      if hit.id !in scores { order := order + [hit.id]; }
      GetUpdated(scores, hit, true);
      ghost var before := scores;
      assert existing == Credited(Get(scores, hit.id), hit, true);
      scores := scores[hit.id := existing];
      forall id ensures Get(scores, id) == Entry(vectorHits[..i + 1], [], id) {
        assert Get(before, id) == Entry(vectorHits[..i], [], id);
        OneMoreVector(vectorHits[..i], [], hit, id);
      }
    }
    assert Ids(vectorHits) + [] == Ids(vectorHits);
    assert vectorHits[..|vectorHits|] == vectorHits && lexicalHits[..0] == [];
    for j := 0 to |lexicalHits|
      invariant forall id :: Get(scores, id) == Entry(vectorHits, lexicalHits[..j], id)
      invariant order == Unique(Ids(vectorHits) + Ids(lexicalHits[..j])) && forall id :: id in order <==> id in scores
    {
      var hit := lexicalHits[j];
      assert lexicalHits[..j + 1] == lexicalHits[..j] + [hit];
      IdsSnoc(lexicalHits[..j], hit);
      Assoc(Ids(vectorHits), Ids(lexicalHits[..j]), [hit.id]);
      UniqueSnoc(Ids(vectorHits) + Ids(lexicalHits[..j]), hit.id);
      var existing := Get(scores, hit.id);
      existing := existing.(score := existing.score + Share(hit.rank), lexicalRank := Some(hit.rank));
      if hit.id !in scores { order := order + [hit.id]; }
      GetUpdated(scores, hit, false);
      ghost var before := scores;
      assert existing == Credited(Get(scores, hit.id), hit, false);
      scores := scores[hit.id := existing];
      forall id ensures Get(scores, id) == Entry(vectorHits, lexicalHits[..j + 1], id) {
        assert Get(before, id) == Entry(vectorHits, lexicalHits[..j], id);
        OneMoreLexical(vectorHits, lexicalHits[..j], hit, id);
      }
    }
    assert lexicalHits[..|lexicalHits|] == lexicalHits;
    ValuesAreEntries(order, scores, vectorHits, lexicalHits);
    top := Slice(Sorting.Sort(Values(order, scores), Descending), limit);
  }

  /** The entry after one more hit. */
  function Credited(e: FusedHit, hit: RankedHit, vector: bool): FusedHit {
    if e.id != hit.id then e
    else if vector then e.(score := e.score + Share(hit.rank), vectorRank := Some(hit.rank))
    else e.(score := e.score + Share(hit.rank), lexicalRank := Some(hit.rank))
  }

  lemma GetUpdated(m: map<string, FusedHit>, hit: RankedHit, vector: bool)
    requires forall id :: Get(m, id).id == id
    ensures forall id :: Get(m[hit.id := Credited(Get(m, hit.id), hit, vector)], id) == Credited(Get(m, id), hit, vector)
  {
    hide Share;
    forall id
      ensures Get(m[hit.id := Credited(Get(m, hit.id), hit, vector)], id) == Credited(Get(m, id), hit, vector)
    {
      assert Get(m, id).id == id;
    }
  }

  lemma NothingYet()
    ensures forall id :: Entry([], [], id) == FusedHit(id, 0.0, None, None)
    ensures Ids([]) == [] && Unique([]) == []
  {
  }

  lemma OneMoreVector(v: Hits, l: Hits, hit: RankedHit, id: string)
    ensures Entry(v + [hit], l, id) == Credited(Entry(v, l, id), hit, true)
  {
    assert (v + [hit])[..|v|] == v;
  }

  lemma OneMoreLexical(v: Hits, l: Hits, hit: RankedHit, id: string)
    ensures Entry(v, l + [hit], id) == Credited(Entry(v, l, id), hit, false)
  {
    assert (l + [hit])[..|l|] == l;
  }

  lemma IdsSnoc(hits: Hits, hit: RankedHit)
    ensures Ids(hits + [hit]) == Ids(hits) + [hit.id]
  {
    assert (hits + [hit])[..|hits|] == hits;
  }

  lemma UniqueSnoc(ids: seq<string>, id: string)
    ensures Unique(ids + [id]) == if id in Unique(ids) then Unique(ids) else Unique(ids) + [id]
  {
    assert (ids + [id])[..|ids|] == ids;
  }

  lemma {:induction false} ValuesAreEntries(order: seq<string>, m: map<string, FusedHit>, v: Hits, l: Hits)
    requires forall id :: id in order ==> id in m
    requires forall id :: Get(m, id) == Entry(v, l, id)
    ensures Values(order, m) == Entries(v, l, order)
  {
    hide Entry;
    if order != [] {
      ValuesAreEntries(order[..|order| - 1], m, v, l);
      assert Get(m, order[|order| - 1]) == Entry(v, l, order[|order| - 1]);
    }
  }

  // --------------------------------------------------------------- shape of the result

  function IdOf(h: FusedHit): string {
    h.id
  }

  lemma {:induction false} UniqueIs(ids: seq<string>)
    ensures forall i, j :: 0 <= i < j < |Unique(ids)| ==> Unique(ids)[i] != Unique(ids)[j]
    ensures forall id :: id in Unique(ids) <==> id in ids
  {
    if ids != [] {
      UniqueIs(ids[..|ids| - 1]);
      assert forall id :: id in ids <==> id in ids[..|ids| - 1] || id == ids[|ids| - 1];
    }
  }

  lemma {:induction false} EntriesAt(v: Hits, l: Hits, ids: seq<string>, i: nat)
    requires i < |ids|
    ensures Entries(v, l, ids)[i] == Entry(v, l, ids[i])
  {
    hide Entry;
    if i < |ids| - 1 { EntriesAt(v, l, ids[..|ids| - 1], i); }
  }

  lemma {:induction false} IdsAt(hits: Hits, i: nat)
    requires i < |hits|
    ensures Ids(hits)[i] == hits[i].id
  {
    if i < |hits| - 1 { IdsAt(hits[..|hits| - 1], i); }
  }

  predicate Occurs(hits: Hits, id: string) {
    exists i :: 0 <= i < |hits| && hits[i].id == id
  }

  lemma IdsOccur(hits: Hits, id: string)
    ensures id in Ids(hits) <==> Occurs(hits, id)
  {
    hide Ids;
    forall i | 0 <= i < |hits| ensures Ids(hits)[i] == hits[i].id { IdsAt(hits, i); }
  }

  /** The fused entries have distinct ids, exactly those of the two lists, each with its exact score. */
  lemma FusedShape(v: Hits, l: Hits)
    ensures Sorting.DistinctBy(Fused(v, l), IdOf)
    ensures forall h :: h in Fused(v, l) ==> h == Entry(v, l, h.id) && (Occurs(v, h.id) || Occurs(l, h.id))
    ensures forall id :: Occurs(v, id) || Occurs(l, id) ==> Entry(v, l, id) in Fused(v, l)
  {
    hide Entries, Unique, Ids, Occurs, Credit, LastRank;
    var ids := Unique(Ids(v) + Ids(l));
    UniqueIs(Ids(v) + Ids(l));
    var f := Fused(v, l);
    forall i | 0 <= i < |f| ensures f[i] == Entry(v, l, ids[i]) { EntriesAt(v, l, ids, i); }
    forall h | h in f ensures h == Entry(v, l, h.id) && (Occurs(v, h.id) || Occurs(l, h.id)) {
      var i :| 0 <= i < |f| && f[i] == h;
      IdsOccur(v, h.id);
      IdsOccur(l, h.id);
      assert ids[i] in ids;
    }
    forall id | Occurs(v, id) || Occurs(l, id) ensures Entry(v, l, id) in f {
      IdsOccur(v, id);
      IdsOccur(l, id);
      assert id in Ids(v) + Ids(l);
      var i :| 0 <= i < |ids| && ids[i] == id;
      assert f[i] == Entry(v, l, id);
    }
  }

  /**
   * The result: a prefix of the stable descending sort, as long as the limit and the
   * number of ids allow, with distinct ids and exact scores.
   */
  lemma TopShape(v: Hits, l: Hits, limit: nat)
    ensures var sorted, top := Sorting.Sort(Fused(v, l), Descending), Top(v, l, limit);
      top <= sorted && |top| == (if limit < |Fused(v, l)| then limit else |Fused(v, l)|) &&
      Sorting.Ascending(sorted, Descending) && multiset(sorted) == multiset(Fused(v, l)) &&
      (forall s :: Sorting.Class(sorted, Descending, s) == Sorting.Class(Fused(v, l), Descending, s)) &&
      Sorting.DistinctBy(top, IdOf) &&
      forall h :: h in top ==> h == Entry(v, l, h.id) && (Occurs(v, h.id) || Occurs(l, h.id))
  {
    hide Fused, Sorting.Sort, Sorting.Class, Sorting.Insert, Entry, Occurs;
    var sorted, top := Sorting.Sort(Fused(v, l), Descending), Top(v, l, limit);
    FusedShape(v, l);
    Sorting.SortIsStable(Fused(v, l), Descending);
    Sorting.SortDistinct(Fused(v, l), Descending, IdOf);
    forall h | h in top ensures h in Fused(v, l) {
      assert h in sorted;
      Sorting.SortMembers(Fused(v, l), Descending, h);
    }
  }

  // ------------------------------------------------------------- both lists beat one

  /** Distinct ids, ranked 1, 2, ... */
  predicate Ranking(hits: Hits) {
    (forall i :: 0 <= i < |hits| ==> hits[i].rank == i + 1) &&
    forall i, j :: 0 <= i < j < |hits| ==> hits[i].id != hits[j].id
  }

  lemma {:induction false} CreditOfAbsent(hits: Hits, id: string)
    requires !Occurs(hits, id)
    ensures Credit(hits, id) == 0.0
  {
    if hits != [] {
      var front := hits[..|hits| - 1];
      assert hits[|hits| - 1].id != id;
      forall i | 0 <= i < |front| ensures front[i].id != id { assert hits[i].id != id; }
      CreditOfAbsent(front, id);
    }
  }

  lemma {:induction false} CreditOfRanked(hits: Hits, i: nat)
    requires Ranking(hits) && i < |hits|
    ensures Credit(hits, hits[i].id) == Share(i + 1)
  {
    hide Share;
    var front := hits[..|hits| - 1];
    if i == |hits| - 1 {
      forall j | 0 <= j < |front| ensures front[j].id != hits[i].id {}
      CreditOfAbsent(front, hits[i].id);
    } else {
      assert front[i] == hits[i];
      CreditOfRanked(front, i);
    }
  }

  lemma {:induction false} LastRankOfRanked(hits: Hits, i: nat)
    requires Ranking(hits) && i < |hits|
    ensures LastRank(hits, hits[i].id) == Some(i + 1)
  {
    if i < |hits| - 1 {
      assert hits[i].id != hits[|hits| - 1].id;
      LastRankOfRanked(hits[..|hits| - 1], i);
    }
  }

  lemma {:induction false} LastRankOfAbsent(hits: Hits, id: string)
    requires !Occurs(hits, id)
    ensures LastRank(hits, id) == None
  {
    if hits != [] {
      var front := hits[..|hits| - 1];
      assert hits[|hits| - 1].id != id;
      forall i | 0 <= i < |front| ensures front[i].id != id { assert hits[i].id != id; }
      LastRankOfAbsent(front, id);
    }
  }

  /** The entry of an id in rankings: a hit at place `i` of a list earns 1/(61 + i), and its rank there is kept. */
  lemma EntryOfRanked(v: Hits, l: Hits, i: nat, j: nat)
    requires Ranking(v) && Ranking(l)
    ensures i < |v| && j < |l| && v[i].id == l[j].id ==>
      Entry(v, l, v[i].id)
      == FusedHit(v[i].id, 1.0 / (61 + i) as real + 1.0 / (61 + j) as real, Some(i + 1), Some(j + 1))
    ensures i < |v| && !Occurs(l, v[i].id) ==>
      Entry(v, l, v[i].id) == FusedHit(v[i].id, 1.0 / (61 + i) as real, Some(i + 1), None)
    ensures j < |l| && !Occurs(v, l[j].id) ==>
      Entry(v, l, l[j].id) == FusedHit(l[j].id, 1.0 / (61 + j) as real, None, Some(j + 1))
  {
    hide Credit, LastRank, Occurs;
    if i < |v| {
      CreditOfRanked(v, i);
      LastRankOfRanked(v, i);
      if !Occurs(l, v[i].id) {
        CreditOfAbsent(l, v[i].id);
        LastRankOfAbsent(l, v[i].id);
      }
    }
    if j < |l| {
      CreditOfRanked(l, j);
      LastRankOfRanked(l, j);
      if !Occurs(v, l[j].id) {
        CreditOfAbsent(v, l[j].id);
        LastRankOfAbsent(v, l[j].id);
      }
    }
  }

  lemma Reciprocals(x: real, y: real)
    requires 0.0 < x <= y
    ensures 1.0 / y <= 1.0 / x
  {
    var a, b := 1.0 / x, 1.0 / y;
    assert a * x == 1.0 && b * y == 1.0;
    if b > a {
      assert b * y >= b * x > a * x;
    }
  }

  lemma SharesFall(r: nat, s: nat)
    requires r <= s
    ensures 0.0 < Share(s) <= Share(r)
  {
    Reciprocals((RRF_K + r) as real, (RRF_K + s) as real);
  }

  /** Two hits among the first 61 outweigh any single hit. */
  lemma TwoSharesOutweighOne(r: nat, s: nat, q: nat)
    requires 1 <= r <= 61 && 1 <= s <= 61 && 1 <= q
    ensures Share(r) + Share(s) > Share(q)
  {
    hide Share;
    SharesFall(r, 61);
    SharesFall(s, 61);
    SharesFall(1, q);
    LastTwoShares();
  }

  lemma LastTwoShares()
    ensures Share(61) + Share(61) > Share(1)
    ensures Share(62) + Share(62) == Share(1)
  {
  }

  /** An id is in both lists, or in exactly one. */
  predicate InBoth(v: Hits, l: Hits, id: string) {
    Occurs(v, id) && Occurs(l, id)
  }

  predicate InOne(v: Hits, l: Hits, id: string) {
    Occurs(v, id) != Occurs(l, id)
  }

  /** With at most 61 hits a list, an id in both lists scores strictly above any id in only one. */
  lemma BothScoreHigher(v: Hits, l: Hits, a: string, b: string)
    requires Ranking(v) && Ranking(l) && |v| <= 61 && |l| <= 61
    requires InBoth(v, l, a) && InOne(v, l, b)
    ensures Entry(v, l, a).score > Entry(v, l, b).score
  {
    hide Credit, Share, LastRank;
    var i :| 0 <= i < |v| && v[i].id == a;
    var j :| 0 <= j < |l| && l[j].id == a;
    CreditOfRanked(v, i);
    CreditOfRanked(l, j);
    if Occurs(v, b) {
      var k :| 0 <= k < |v| && v[k].id == b;
      CreditOfRanked(v, k);
      CreditOfAbsent(l, b);
      TwoSharesOutweighOne(i + 1, j + 1, k + 1);
    } else {
      var k :| 0 <= k < |l| && l[k].id == b;
      CreditOfRanked(l, k);
      CreditOfAbsent(v, b);
      TwoSharesOutweighOne(i + 1, j + 1, k + 1);
    }
  }

  /** So it comes first in the result. */
  lemma BothComeFirst(v: Hits, l: Hits, limit: nat, p: nat, q: nat)
    requires Ranking(v) && Ranking(l) && |v| <= 61 && |l| <= 61
    requires var top := Top(v, l, limit); p < |top| && q < |top| && InBoth(v, l, top[p].id) && InOne(v, l, top[q].id)
    ensures p < q
  {
    hide Fused, Sorting.Sort, Sorting.Class, InBoth, InOne, Ranking, Entry, Occurs;
    TopShape(v, l, limit);
    var sorted, top := Sorting.Sort(Fused(v, l), Descending), Top(v, l, limit);
    BothScoreHigher(v, l, top[p].id, top[q].id);
    assert top[p] in top && top[q] in top;
    assert top[p] == sorted[p] && top[q] == sorted[q];
    HigherIsEarlier(sorted, p, q);
  }

  lemma HigherIsEarlier(sorted: seq<FusedHit>, p: nat, q: nat)
    requires Sorting.Ascending(sorted, Descending) && p < |sorted| && q < |sorted| && sorted[p].score > sorted[q].score
    ensures p < q
  {
  }

  // ---------------------------------------------------------------------- and no further

  function Fillers(c: char, n: nat): (r: Hits)
    ensures |r| == n
    ensures forall i :: 0 <= i < n ==> r[i].rank == i + 1 && |r[i].id| == i + 1 && r[i].id[i] == c
  {
    if n == 0 then [] else Fillers(c, n - 1) + [RankedHit(Run(c, n), n)]
  }

  function Run(c: char, n: nat): (r: string)
    ensures |r| == n && forall i :: 0 <= i < n ==> r[i] == c
  {
    if n == 0 then "" else Run(c, n - 1) + [c]
  }

  lemma FillersRank(c: char)
    ensures Ranking(Fillers(c, 61) + [RankedHit("", 62)])
  {
    hide Fillers;
    var hits := Fillers(c, 61) + [RankedHit("", 62)];
    forall i, j | 0 <= i < j < |hits| ensures hits[i].id != hits[j].id {
      assert |hits[i].id| == i + 1 && (j < 61 ==> |hits[j].id| == j + 1);
    }
  }

  /** With 62 hits a list it is a tie: an id last in both lists scores like an id first in one. */
  lemma SixtyTwoIsTooMany() returns (v: Hits, l: Hits, a: string, b: string)
    ensures |v| == |l| == 62 && Ranking(v) && Ranking(l) && InBoth(v, l, a) && InOne(v, l, b)
    ensures Entry(v, l, a).score == Entry(v, l, b).score
  {
    hide Credit, Share, LastRank, Fillers, Ranking;
    var last := RankedHit("", 62);
    v, l, a, b := Fillers('v', 61) + [last], Fillers('l', 61) + [last], "", Fillers('v', 61)[0].id;
    FillersRank('v');
    FillersRank('l');
    assert v[61].id == a && l[61].id == a && v[0].id == b;
    assert !Occurs(l, b) by {
      assert Fillers('v', 61)[0].id[0] == 'v' && |b| == 1;
      forall i | 0 <= i < 62 ensures l[i].id != b {
        if i < 61 { assert |l[i].id| == i + 1 && l[i].id[i] == 'l'; }
      }
    }
    CreditOfRanked(v, 61);
    CreditOfRanked(l, 61);
    CreditOfRanked(v, 0);
    CreditOfAbsent(l, b);
    LastTwoShares();
  }
}
