/** Ranking a list of (index, score) entries: sorted by score, highest
    first, by a stable sort, so that entries with equal scores keep the
    order of their indices. Generic over where the scores come from. */
module Ranking {

  /** One entry of the score list: a catalog index and its score. */
  datatype Scored = Scored(idx: nat, score: real)

  /** The order of the ranking: the higher score first; on equal scores the
      lower index first, which is what a stable descending sort does to a
      list built in index order. */
  predicate Before(x: Scored, y: Scored)
  {
    x.score > y.score || (x.score == y.score && x.idx < y.idx)
  }

  predicate Ranked(s: seq<Scored>)
  {
    forall p, q :: 0 <= p < q < |s| ==> Before(s[p], s[q])
  }

  predicate IdxAscending(s: seq<Scored>)
  {
    forall p, q :: 0 <= p < q < |s| ==> s[p].idx < s[q].idx
  }

  predicate DistinctIdx(s: seq<Scored>)
  {
    forall p, q :: 0 <= p < q < |s| ==> s[p].idx != s[q].idx
  }

  /** The score list of `scores`: entry i is (i, scores[i]). */
  function Enumerate(scores: seq<real>): seq<Scored>
  {
    seq(|scores|, i requires 0 <= i < |scores| => Scored(i, scores[i]))
  }

  /** Puts `x` in front of the first entry it ranks before. */
  function Insert(x: Scored, s: seq<Scored>): (r: seq<Scored>)
    ensures |r| == |s| + 1
    ensures multiset(r) == multiset(s) + multiset{x}
  {
    if s == [] || Before(x, s[0]) then [x] + s
    else
      assert s == [s[0]] + s[1..];
      [s[0]] + Insert(x, s[1..])
  }

  /** The reference ranking: insertion sort by `Before`. */
  function SortRanked(s: seq<Scored>): (r: seq<Scored>)
    ensures |r| == |s|
    ensures multiset(r) == multiset(s)
  {
    if s == [] then []
    else
      assert s == [s[0]] + s[1..];
      Insert(s[0], SortRanked(s[1..]))
  }

  lemma RankedTail(x: seq<Scored>)
    requires Ranked(x) && x != []
    ensures Ranked(x[1..])
  {
    forall p, q | 0 <= p < q < |x| - 1
      ensures Before(x[1..][p], x[1..][q])
    {
      assert x[1..][p] == x[p + 1] && x[1..][q] == x[q + 1];
    }
  }

  lemma {:induction false} InsertRanked(x: Scored, s: seq<Scored>)
    requires Ranked(s)
    requires forall k :: 0 <= k < |s| ==> s[k].idx != x.idx
    ensures Ranked(Insert(x, s))
  {
    if s == [] || Before(x, s[0]) {
      var r := [x] + s;
      forall p, q | 0 <= p < q < |r|
        ensures Before(r[p], r[q])
      {
        if p == 0 && q > 1 {
          assert Before(s[0], s[q - 1]);
        }
      }
    } else {
      RankedTail(s);
      InsertRanked(x, s[1..]);
      var t := Insert(x, s[1..]);
      var r := [s[0]] + t;
      InsertAfter(s[0], x, s[1..]);
      forall p, q | 0 <= p < q < |r|
        ensures Before(r[p], r[q])
      {
        if p == 0 {
          assert r[q] == t[q - 1];
        } else {
          assert r[p] == t[p - 1] && r[q] == t[q - 1];
        }
      }
    }
  }

  /** An entry that ranks before `x` and before every entry of `s` ranks
      before every entry of `Insert(x, s)`. */
  lemma InsertAfter(y: Scored, x: Scored, s: seq<Scored>)
    requires Before(y, x)
    requires forall k :: 0 <= k < |s| ==> Before(y, s[k])
    ensures forall k :: 0 <= k < |Insert(x, s)| ==> Before(y, Insert(x, s)[k])
  {
    var t := Insert(x, s);
    forall k | 0 <= k < |t|
      ensures Before(y, t[k])
    {
      assert t[k] in multiset(t);
      if t[k] != x {
        assert t[k] in multiset(s);
      }
    }
  }

  lemma {:induction false} SortRankedIsRanked(s: seq<Scored>)
    requires DistinctIdx(s)
    ensures Ranked(SortRanked(s))
  {
    if s != [] {
      SortRankedIsRanked(s[1..]);
      var t := SortRanked(s[1..]);
      forall k | 0 <= k < |t|
        ensures t[k].idx != s[0].idx
      {
        assert t[k] in multiset(s[1..]);
        var m :| 0 <= m < |s[1..]| && s[1..][m] == t[k];
        assert s[m + 1] == t[k];
      }
      InsertRanked(s[0], t);
    }
  }

  /** Two rankings of the same entries start with the same entry. */
  lemma RankedHeads(x: seq<Scored>, y: seq<Scored>)
    requires Ranked(x) && Ranked(y)
    requires multiset(x) == multiset(y)
    requires x != [] && y != []
    ensures x[0] == y[0]
  {
    assert x[0] in multiset(y);
    var k :| 0 <= k < |y| && y[k] == x[0];
    assert y[0] in multiset(x);
    var m :| 0 <= m < |x| && x[m] == y[0];
    assert k != 0 ==> Before(y[0], x[0]);
    assert m != 0 ==> Before(x[0], y[0]);
  }

  /** A ranking is fully determined by its entries: two rankings of the
      same entries are the same sequence. */
  lemma {:induction false} RankedUnique(x: seq<Scored>, y: seq<Scored>)
    requires Ranked(x) && Ranked(y)
    requires multiset(x) == multiset(y)
    ensures x == y
    decreases |x|
  {
    assert |x| == |multiset(x)| == |multiset(y)| == |y|;
    if x != [] {
      RankedHeads(x, y);
      assert x == [x[0]] + x[1..] && y == [y[0]] + y[1..];
      assert multiset(x[1..]) == multiset(y[1..]) by {
        assert multiset(x[1..]) == multiset(x) - multiset{x[0]};
        assert multiset(y[1..]) == multiset(y) - multiset{y[0]};
      }
      RankedTail(x);
      RankedTail(y);
      RankedUnique(x[1..], y[1..]);
    }
  }

  lemma EnumerateAscending(scores: seq<real>)
    ensures IdxAscending(Enumerate(scores)) && DistinctIdx(Enumerate(scores))
  {
  }

  /** The ranking of a score sequence: ordered by `Before` and holding
      exactly the entries (i, scores[i]). */
  function RankScores(scores: seq<real>): (r: seq<Scored>)
    ensures |r| == |scores|
    ensures Ranked(r)
    ensures multiset(r) == multiset(Enumerate(scores))
  {
    EnumerateAscending(scores);
    SortRankedIsRanked(Enumerate(scores));
    SortRanked(Enumerate(scores))
  }

  /** The ranking holds one entry per score, each with its own index and
      that index's score, and every index appears. */
  lemma RankingCovers(scores: seq<real>)
    ensures var r := RankScores(scores);
      |r| == |scores| &&
      (forall k :: 0 <= k < |r| ==> r[k].idx < |scores| && r[k].score == scores[r[k].idx]) &&
      (forall p, q :: 0 <= p < q < |r| ==> r[p].idx != r[q].idx) &&
      (forall i :: 0 <= i < |scores| ==> Scored(i, scores[i]) in r)
  {
    var r := RankScores(scores);
    var e := Enumerate(scores);
    assert |r| == |multiset(r)| == |multiset(e)| == |e|;
    forall k | 0 <= k < |r|
      ensures r[k].idx < |scores| && r[k].score == scores[r[k].idx]
    {
      assert r[k] in multiset(e);
      var j :| 0 <= j < |e| && e[j] == r[k];
    }
    forall p, q | 0 <= p < q < |r|
      ensures r[p].idx != r[q].idx
    {
      assert Before(r[p], r[q]);
    }
    forall i | 0 <= i < |scores|
      ensures Scored(i, scores[i]) in r
    {
      assert e[i] in multiset(r);
    }
  }

  /** When every score is the same, the ranking is the score list itself:
      the sort keeps the index order. */
  lemma EqualScoresKeepOrder(scores: seq<real>)
    requires forall i, j :: 0 <= i < |scores| && 0 <= j < |scores| ==> scores[i] == scores[j]
    ensures RankScores(scores) == Enumerate(scores)
  {
    var e := Enumerate(scores);
    assert Ranked(e);
    RankedUnique(RankScores(scores), e);
  }

  /** The first `stop` entries are the best: every index left out scores
      no more than every index kept. */
  lemma RankingTop(scores: seq<real>, stop: nat, i: nat)
    requires stop <= |scores| && i < |scores|
    requires forall k :: 0 <= k < stop ==> RankScores(scores)[k].idx != i
    ensures forall k :: 0 <= k < stop ==> RankScores(scores)[k].score >= scores[i]
  {
    RankingCovers(scores);
    var r := RankScores(scores);
    assert Scored(i, scores[i]) in r;
    var m :| 0 <= m < |r| && r[m] == Scored(i, scores[i]);
    forall k | 0 <= k < stop
      ensures r[k].score >= scores[i]
    {
      assert k < m;
      assert Before(r[k], r[m]);
    }
  }

  /** The sort call: a stable sort by score, highest first, done in place
      on the list by exchanging neighbours. The list is built in index
      order, so stability is ranking ties by index. */
  method SortByScore(s: seq<Scored>) returns (t: seq<Scored>)
    requires IdxAscending(s)
    ensures Ranked(t)
    ensures multiset(t) == multiset(s)
  {
    t := s;
    for i := 0 to |t|
      invariant |t| == |s|
      invariant forall p, q :: 0 <= p < q < i ==> Before(t[p], t[q])
      invariant t[i..] == s[i..]
      invariant multiset(t) == multiset(s)
      invariant forall p, q :: 0 <= p < i <= q < |t| ==> t[p].idx < t[q].idx
    {
      assert t[i] == s[i] && forall q :: i < q < |t| ==> t[q] == s[q];
      var u := Sink(t, i);
      assert u[i + 1..] == t[i + 1..] == s[i + 1..];
      t := u;
    }
  }

  /** The state of one pass of the sort, with the moving entry at `j`:
      the other entries up to `i` are ranked, the moving entry ranks before
      those after it and has a higher index than all of them, and nothing
      past `i` has changed. */
  predicate Sinking(t: seq<Scored>, t0: seq<Scored>, i: nat, j: nat)
  {
    j <= i < |t| == |t0| &&
    t[j] == t0[i] &&
    (forall p, q :: 0 <= p < q <= i && p != j && q != j ==> Before(t[p], t[q])) &&
    (forall q :: j < q <= i ==> Before(t[j], t[q])) &&
    (forall p :: 0 <= p <= i && p != j ==> t[p].idx < t[j].idx) &&
    t[i + 1..] == t0[i + 1..] &&
    multiset(t) == multiset(t0) &&
    (forall p, q :: 0 <= p <= i < q < |t| ==> t[p].idx < t[q].idx)
  }

  /** Exchanging the moving entry with a lower-scored predecessor keeps
      the state; `u` is `t` with entries j - 1 and j exchanged. */
  lemma SinkStep(t: seq<Scored>, u: seq<Scored>, t0: seq<Scored>, i: nat, j: nat)
    requires Sinking(t, t0, i, j)
    requires 0 < j && t[j - 1].score < t[j].score
    requires |u| == |t| && u[j - 1] == t[j] && u[j] == t[j - 1]
    requires forall k :: 0 <= k < |t| && k != j - 1 && k != j ==> u[k] == t[k]
    requires multiset(u) == multiset(t)
    ensures Sinking(u, t0, i, j - 1)
  {
    assert u[i + 1..] == t[i + 1..];
    forall p, q | 0 <= p < q <= i && p != j - 1 && q != j - 1
      ensures Before(u[p], u[q])
    {
      if q == j {
        assert Before(t[p], t[j - 1]);
      } else if p == j {
        assert Before(t[j - 1], t[q]);
      }
    }
  }

  /** One pass of the sort: moves entry `i` towards the front past the
      entries with a lower score, so that the first i + 1 entries are
      ranked. The entries after `i` are untouched. */
  method Sink(t0: seq<Scored>, i: nat) returns (t: seq<Scored>)
    requires i < |t0|
    requires forall p, q :: 0 <= p < q < i ==> Before(t0[p], t0[q])
    requires forall p :: 0 <= p < i ==> t0[p].idx < t0[i].idx
    requires forall p, q :: 0 <= p <= i < q < |t0| ==> t0[p].idx < t0[q].idx
    ensures |t| == |t0|
    ensures forall p, q :: 0 <= p < q <= i ==> Before(t[p], t[q])
    ensures t[i + 1..] == t0[i + 1..]
    ensures multiset(t) == multiset(t0)
    ensures forall p, q :: 0 <= p <= i < q < |t| ==> t[p].idx < t[q].idx
  {
    t := t0;
    var j: nat := i;
    while j > 0 && t[j - 1].score < t[j].score
      invariant Sinking(t, t0, i, j)
    {
      var u := t[j - 1 := t[j]][j := t[j - 1]];
      SinkStep(t, u, t0, i, j);
      t, j := u, j - 1;
    }
    forall p | 0 <= p < j
      ensures Before(t[p], t[j])
    {
      if p < j - 1 {
        assert Before(t[p], t[j - 1]);
      }
    }
  }
}
