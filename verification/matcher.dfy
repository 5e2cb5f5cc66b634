/** The profile-matching endpoint without its I/O: given the occupation
    catalog and its embedding vectors (as loaded from disk), the outcome of
    embedding the user's text, and `top_k`, the response it returns. */
module Matcher {
  import opened Cosine
  import opened Ranking

  /** A catalog row, as a JSON object from the occupation data file. */
  type Row = map<string, string>

  /** The outcome of the embedding service call on the user's text. */
  datatype Embedding = Embedded(vec: Vector) | EmbedFailed(reason: string)

  datatype Hit = Hit(id: string, nama: string, score: real, gap: string)

  datatype Response = Recommendations(hits: seq<Hit>) | Error(message: string)

  /** The message returned when the catalog or the vectors are missing. */
  const DatabaseMissing := "Database not found. " + "Please run scripts/convert_data.py locally."
  const EmbeddingErrorPrefix := "Embedding error: "
  const GapNote := "Skill Gap Analysis requires detailed comparison."
  const Missing := "N/A"
  const IdKey := "OkupasiID"
  const NameKey := "Okupasi"

  function Min(a: int, b: int): int
  {
    if a < b then a else b
  }

  /** `row.get(key, 'N/A')` */
  function Get(row: Row, key: string): string
  {
    if key in row then row[key] else Missing
  }

  /** The length of `xs[:k]` for a list of length `n`: a negative `k`
      counts from the end. */
  function SliceStop(n: nat, k: int): (r: nat)
    ensures r <= n
  {
    if k >= 0 then Min(k, n) else if n + k > 0 then n + k else 0
  }

  /** The scores of the catalog vectors against the query, in catalog order. */
  function Similarities(root: real -> real, query: Vector, vectors: seq<Vector>): (r: seq<real>)
    ensures |r| == |vectors|
  {
    seq(|vectors|, i requires 0 <= i < |vectors| => Similarity(root, query, vectors[i]))
  }

  /** The entries kept by `scores[:top_k]` after the sort. */
  function Top(scores: seq<real>, topK: int): (r: seq<Scored>)
    ensures |r| == SliceStop(|scores|, topK)
    ensures forall k :: 0 <= k < |r| ==> r[k].idx < |scores| && r[k].score == scores[r[k].idx]
  {
    RankingCovers(scores);
    RankScores(scores)[..SliceStop(|scores|, topK)]
  }

  /** One result object. */
  function Shape(row: Row, score: real): Hit
  {
    Hit(Get(row, IdKey), Get(row, NameKey), score, GapNote)
  }

  function Hits(rows: seq<Row>, top: seq<Scored>): (r: seq<Hit>)
    requires forall k :: 0 <= k < |top| ==> top[k].idx < |rows|
    ensures |r| == |top|
  {
    seq(|top|, k requires 0 <= k < |top| => Shape(rows[top[k].idx], top[k].score))
  }

  /** The response of the endpoint. The catalog and the vectors are cut to
      the shorter of the two before scoring. */
  function MatchSpec(root: real -> real, catalog: seq<Row>, vectors: seq<Vector>,
                     embedding: Embedding, topK: int): Response
  {
    if catalog == [] || vectors == [] then Error(DatabaseMissing)
    else match embedding
      case EmbedFailed(reason) => Error(EmbeddingErrorPrefix + reason)
      case Embedded(query) =>
        var n := Min(|catalog|, |vectors|);
        Recommendations(Hits(catalog, Top(Similarities(root, query, vectors[..n]), topK)))
  }

  /** The scoring loop: entry i is (i, score of vector i). */
  method ScoreAll(root: real -> real, query: Vector, vectors: seq<Vector>) returns (scores: seq<Scored>)
    ensures |scores| == |vectors|
    ensures forall i :: 0 <= i < |vectors| ==> scores[i] == Scored(i, Similarity(root, query, vectors[i]))
    ensures scores == Enumerate(Similarities(root, query, vectors))
  {
    scores := [];
    for i := 0 to |vectors|
      invariant scores == Enumerate(Similarities(root, query, vectors[..i]))
    {
      assert Similarities(root, query, vectors[..i + 1])
          == Similarities(root, query, vectors[..i]) + [Similarity(root, query, vectors[i])];
      scores := scores + [Scored(i, Similarity(root, query, vectors[i]))];
    }
    assert vectors[..|vectors|] == vectors;
  }

  /** The scoring loop, the sort and the slice: the entries of the
      recommended catalog indices, best first. */
  method RankTop(root: real -> real, query: Vector, vectors: seq<Vector>, topK: int)
    returns (top: seq<Scored>)
    ensures top == Top(Similarities(root, query, vectors), topK)
  {
    var scoreList := ScoreAll(root, query, vectors);
    ghost var sims := Similarities(root, query, vectors);
    EnumerateAscending(sims);
    scoreList := SortByScore(scoreList);
    RankedUnique(scoreList, RankScores(sims));
    top := scoreList[..SliceStop(|scoreList|, topK)];
  }

  /** The loop that turns each kept entry into a result object. */
  method ShapeAll(rows: seq<Row>, top: seq<Scored>) returns (results: seq<Hit>)
    requires forall k :: 0 <= k < |top| ==> top[k].idx < |rows|
    ensures results == Hits(rows, top)
  {
    results := [];
    for k := 0 to |top|
      invariant results == Hits(rows, top[..k])
    {
      results := results + [Shape(rows[top[k].idx], top[k].score)];
      assert top[..k + 1] == top[..k] + [top[k]];
    }
    assert top[..|top|] == top;
  }

  /** The trim: both lists cut to the shorter length, when they differ. */
  method Align(catalog: seq<Row>, vectors: seq<Vector>) returns (rows: seq<Row>, vecs: seq<Vector>)
    ensures |rows| == |vecs| == Min(|catalog|, |vectors|)
    ensures rows <= catalog && vecs <= vectors
  {
    rows, vecs := catalog, vectors;
    if |rows| != |vecs| {
      var m := Min(|rows|, |vecs|);
      rows, vecs := rows[..m], vecs[..m];
    }
  }

  /** The endpoint, step by step: the emptiness check, the trim, the
      embedding outcome, then scoring, sorting, slicing and shaping. */
  method Match(root: real -> real, catalog: seq<Row>, vectors: seq<Vector>,
               embedding: Embedding, topK: int) returns (r: Response)
    ensures r == MatchSpec(root, catalog, vectors, embedding, topK)
  {
    if catalog == [] || vectors == [] {
      return Error(DatabaseMissing);
    }
    var rows, vecs := Align(catalog, vectors);
    var n := Min(|catalog|, |vectors|);
    assert |rows| == n && rows == catalog[..n] && vecs == vectors[..n];
    match embedding {
      case EmbedFailed(reason) =>
        return Error(EmbeddingErrorPrefix + reason);
      case Embedded(query) =>
        var top := RankTop(root, query, vecs, topK);
        var results := ShapeAll(rows, top);
        assert results == Hits(catalog, top);
        return Recommendations(results);
    }
  }

  /** The two errors, and when each is returned. */
  lemma MatchErrors(root: real -> real, catalog: seq<Row>, vectors: seq<Vector>,
                    embedding: Embedding, topK: int)
    ensures var r := MatchSpec(root, catalog, vectors, embedding, topK);
      (r == Error(DatabaseMissing) <==> catalog == [] || vectors == []) &&
      (r.Error? <==> catalog == [] || vectors == [] || embedding.EmbedFailed?) &&
      (catalog != [] && vectors != [] && embedding.EmbedFailed? ==>
         r == Error(EmbeddingErrorPrefix + embedding.reason))
  {
    var r := MatchSpec(root, catalog, vectors, embedding, topK);
    if catalog != [] && vectors != [] && embedding.EmbedFailed? {
      assert (EmbeddingErrorPrefix + embedding.reason)[0] == 'E';
      assert DatabaseMissing[0] == 'D';
    }
  }

  /** How many recommendations come back: `top_k` of them, or all when the
      catalog is smaller; a negative `top_k` drops that many from the end. */
  lemma MatchLength(root: real -> real, catalog: seq<Row>, vectors: seq<Vector>,
                    query: Vector, topK: int)
    requires catalog != [] && vectors != []
    ensures var r := MatchSpec(root, catalog, vectors, Embedded(query), topK);
      var n := Min(|catalog|, |vectors|);
      r.Recommendations? &&
      (topK >= 0 ==> |r.hits| == Min(topK, n)) &&
      (topK < 0 ==> |r.hits| == if n + topK > 0 then n + topK else 0)
  {
  }

  /** Each recommendation is the catalog row of one catalog index, scored
      against that index's vector, with the placeholder gap text and "N/A"
      for a missing field; no index is recommended twice. */
  lemma MatchHits(root: real -> real, catalog: seq<Row>, vectors: seq<Vector>,
                  query: Vector, topK: int)
    requires catalog != [] && vectors != []
    ensures var hits := MatchSpec(root, catalog, vectors, Embedded(query), topK).hits;
      var n := Min(|catalog|, |vectors|);
      var top := Top(Similarities(root, query, vectors[..n]), topK);
      |hits| == |top| &&
      (forall k :: 0 <= k < |top| ==>
         var i := top[k].idx;
         i < n &&
         hits[k].id == (if IdKey in catalog[i] then catalog[i][IdKey] else Missing) &&
         hits[k].nama == (if NameKey in catalog[i] then catalog[i][NameKey] else Missing) &&
         hits[k].score == Similarity(root, query, vectors[i]) &&
         hits[k].gap == GapNote) &&
      (forall p, q :: 0 <= p < q < |top| ==> top[p].idx != top[q].idx)
  {
    var n := Min(|catalog|, |vectors|);
    var sims := Similarities(root, query, vectors[..n]);
    var top := Top(sims, topK);
    forall p, q | 0 <= p < q < |top|
      ensures top[p].idx != top[q].idx
    {
      assert Before(RankScores(sims)[p], RankScores(sims)[q]);
    }
  }

  /** The recommendations come best first; equal scores keep catalog order. */
  lemma MatchOrder(root: real -> real, catalog: seq<Row>, vectors: seq<Vector>,
                   query: Vector, topK: int)
    requires catalog != [] && vectors != []
    ensures var n := Min(|catalog|, |vectors|);
      var top := Top(Similarities(root, query, vectors[..n]), topK);
      var hits := MatchSpec(root, catalog, vectors, Embedded(query), topK).hits;
      |hits| == |top| &&
      forall p, q :: 0 <= p < q < |top| ==>
        hits[p].score >= hits[q].score &&
        (hits[p].score == hits[q].score ==> top[p].idx < top[q].idx)
  {
    var n := Min(|catalog|, |vectors|);
    var sims := Similarities(root, query, vectors[..n]);
    var top := Top(sims, topK);
    forall p, q | 0 <= p < q < |top|
      ensures Before(top[p], top[q])
    {
      assert Before(RankScores(sims)[p], RankScores(sims)[q]);
    }
  }

  /** The recommendations are the best ones: a catalog index that is not
      recommended scores no higher than any that is. */
  lemma MatchBest(root: real -> real, catalog: seq<Row>, vectors: seq<Vector>,
                  query: Vector, topK: int, i: nat)
    requires catalog != [] && vectors != []
    requires i < Min(|catalog|, |vectors|)
    requires var top := Top(Similarities(root, query, vectors[..Min(|catalog|, |vectors|)]), topK);
      forall k :: 0 <= k < |top| ==> top[k].idx != i
    ensures forall h :: h in MatchSpec(root, catalog, vectors, Embedded(query), topK).hits ==>
      h.score >= Similarity(root, query, vectors[i])
  {
    var n := Min(|catalog|, |vectors|);
    var sims := Similarities(root, query, vectors[..n]);
    var stop := SliceStop(n, topK);
    var top := Top(sims, topK);
    assert forall k :: 0 <= k < stop ==> RankScores(sims)[k] == top[k];
    RankingTop(sims, stop, i);
    var hits := MatchSpec(root, catalog, vectors, Embedded(query), topK).hits;
    forall h | h in hits
      ensures h.score >= Similarity(root, query, vectors[i])
    {
      var k :| 0 <= k < |hits| && hits[k] == h;
      assert h.score == top[k].score;
    }
  }

  /** A `top_k` at least the catalog size recommends every catalog index. */
  lemma MatchComplete(root: real -> real, catalog: seq<Row>, vectors: seq<Vector>,
                      query: Vector, topK: int)
    requires catalog != [] && vectors != []
    requires topK >= Min(|catalog|, |vectors|)
    ensures var n := Min(|catalog|, |vectors|);
      var top := Top(Similarities(root, query, vectors[..n]), topK);
      forall i :: 0 <= i < n ==> Scored(i, Similarity(root, query, vectors[i])) in top
  {
    var n := Min(|catalog|, |vectors|);
    var sims := Similarities(root, query, vectors[..n]);
    RankingCovers(sims);
    var top := Top(sims, topK);
    assert top == RankScores(sims);
    forall i | 0 <= i < n
      ensures Scored(i, Similarity(root, query, vectors[i])) in top
    {
      assert Scored(i, sims[i]) in top;
    }
  }

  /** Rows or vectors beyond the shorter of the two never matter. */
  lemma MatchTrims(root: real -> real, catalog: seq<Row>, vectors: seq<Vector>,
                   embedding: Embedding, topK: int)
    ensures var n := Min(|catalog|, |vectors|);
      MatchSpec(root, catalog, vectors, embedding, topK)
        == MatchSpec(root, catalog[..n], vectors[..n], embedding, topK)
  {
    var n := Min(|catalog|, |vectors|);
    if catalog != [] && vectors != [] && embedding.Embedded? {
      assert vectors[..n][..n] == vectors[..n];
      var top := Top(Similarities(root, embedding.vec, vectors[..n]), topK);
      assert Hits(catalog, top) == Hits(catalog[..n], top);
    }
  }

  /** A query vector of zeros, the empty one included, scores every
      occupation 0, and the recommendations are the first rows of the
      catalog in order. */
  lemma ZeroQueryKeepsCatalogOrder(root: real -> real, catalog: seq<Row>, vectors: seq<Vector>,
                                   query: Vector, topK: int)
    requires root(0.0) == 0.0
    requires forall j :: 0 <= j < |query| ==> query[j] == 0.0
    requires catalog != [] && vectors != []
    ensures var hits := MatchSpec(root, catalog, vectors, Embedded(query), topK).hits;
      forall k :: 0 <= k < |hits| ==> hits[k] == Shape(catalog[k], 0.0)
  {
    var n := Min(|catalog|, |vectors|);
    var sims := Similarities(root, query, vectors[..n]);
    forall i | 0 <= i < n
      ensures sims[i] == 0.0
    {
      ZeroVectorScoresZero(root, query, vectors[i]);
    }
    EqualScoresKeepOrder(sims);
  }
}
