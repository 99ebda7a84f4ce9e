/** The ranking step of `recommend`:
    `sorted(list(enumerate(row)), key=lambda x: x[1], reverse=True)[1:6]`.
    Similarity scores are modelled as integers; the ranking uses only their order, and each card carries the value. */
module Ranking {
  import opened Seqs

  /** One `(position, score)` pair produced by `enumerate`. */
  datatype Scored = Scored(pos: nat, score: int)

  /** How many recommendations are kept after the top-ranked entry. */
  const RecommendationCount := 5

  /** `list(enumerate(row))`. */
  function Enumerate(row: seq<int>): (r: seq<Scored>)
    ensures |r| == |row|
    ensures forall i :: 0 <= i < |r| ==> r[i] == Scored(i, row[i])
  {
    seq(|row|, i requires 0 <= i < |row| => Scored(i, row[i]))
  }

  /** The order a stable descending sort gives to enumerated pairs: higher
      score first, and among equal scores the earlier position first. */
  predicate Outranks(a: Scored, b: Scored) {
    a.score > b.score || (a.score == b.score && a.pos < b.pos)
  }

  /** Every entry outranks every later entry. */
  predicate Ranked(s: seq<Scored>) {
    forall i, j :: 0 <= i < j < |s| ==> Outranks(s[i], s[j])
  }

  /** Scores never increase along the sequence. */
  predicate ScoreOrdered(s: seq<Scored>) {
    forall i, j :: 0 <= i < j < |s| ==> s[i].score >= s[j].score
  }

  predicate PositionsAscending(s: seq<Scored>) {
    forall i, j :: 0 <= i < j < |s| ==> s[i].pos < s[j].pos
  }

  /** Reference definition of the ordering `sorted` produces for a row: a
      sequence that holds each enumerated pair once, ranked. */
  ghost predicate IsRankingOf(o: seq<Scored>, row: seq<int>) {
    multiset(o) == multiset(Enumerate(row)) && Ranked(o)
  }

  /** Places x in front of the first entry of t whose score it reaches, so
      on a tie x (which came earlier in the input) goes first. */
  function Insert(x: Scored, t: seq<Scored>): (r: seq<Scored>)
    ensures multiset(r) == multiset(t) + multiset{x}
    decreases |t|
  {
    if |t| == 0 || x.score >= t[0].score then [x] + t
    else
      assert t == [t[0]] + t[1..];
      [t[0]] + Insert(x, t[1..])
  }

  lemma InsertMember(x: Scored, t: seq<Scored>, y: Scored)
    requires y in Insert(x, t)
    ensures y == x || y in t
  {
  }

  lemma {:induction false} InsertKeepsScoreOrder(x: Scored, t: seq<Scored>)
    requires ScoreOrdered(t)
    ensures ScoreOrdered(Insert(x, t))
    decreases |t|
  {
    if |t| > 0 && x.score < t[0].score {
      InsertKeepsScoreOrder(x, t[1..]);
      var rest := Insert(x, t[1..]);
      forall j | 0 <= j < |rest|
        ensures t[0].score >= rest[j].score
      {
        InsertMember(x, t[1..], rest[j]);
      }
      assert Insert(x, t) == [t[0]] + rest;
    }
  }

  lemma {:induction false} InsertKeepsRanking(x: Scored, t: seq<Scored>)
    requires Ranked(t)
    requires forall y :: y in t ==> x.pos < y.pos
    ensures Ranked(Insert(x, t))
    decreases |t|
  {
    if |t| > 0 && x.score < t[0].score {
      InsertKeepsRanking(x, t[1..]);
      var rest := Insert(x, t[1..]);
      forall j | 0 <= j < |rest|
        ensures Outranks(t[0], rest[j])
      {
        InsertMember(x, t[1..], rest[j]);
      }
      assert Insert(x, t) == [t[0]] + rest;
    }
  }

  /** Python's stable `sorted(..., key=score, reverse=True)`. */
  function SortByScore(s: seq<Scored>): (r: seq<Scored>)
    ensures multiset(r) == multiset(s)
    ensures |r| == |s|
  {
    if |s| == 0 then []
    else
      assert s == [s[0]] + s[1..];
      Insert(s[0], SortByScore(s[1..]))
  }

  /** The sort orders by score, whatever the input. */
  lemma {:induction false} SortIsScoreOrdered(s: seq<Scored>)
    ensures ScoreOrdered(SortByScore(s))
  {
    if |s| > 0 {
      SortIsScoreOrdered(s[1..]);
      InsertKeepsScoreOrder(s[0], SortByScore(s[1..]));
    }
  }

  /** Stability: for pairs listed in ascending position, as `enumerate`
      lists them, ties come out in ascending position. */
  lemma {:induction false} SortIsRanked(s: seq<Scored>)
    requires PositionsAscending(s)
    ensures Ranked(SortByScore(s))
  {
    if |s| > 0 {
      var rest := SortByScore(s[1..]);
      SortIsRanked(s[1..]);
      forall y | y in rest
        ensures s[0].pos < y.pos
      {
        assert y in multiset(s[1..]);
        var k :| 0 <= k < |s[1..]| && s[1..][k] == y;
        assert s[k + 1] == y;
      }
      InsertKeepsRanking(s[0], rest);
    }
  }

  /** A ranked sequence is determined by its elements. */
  lemma {:induction false} RankingUnique(a: seq<Scored>, b: seq<Scored>)
    requires Ranked(a) && Ranked(b)
    requires multiset(a) == multiset(b)
    ensures a == b
    decreases |a|
  {
    if |a| > 0 {
      assert a[0] in multiset(b);
      assert b[0] in multiset(a);
      var k :| 0 <= k < |b| && b[k] == a[0];
      var m :| 0 <= m < |a| && a[m] == b[0];
      assert k == 0;
      assert a == [a[0]] + a[1..];
      assert b == [b[0]] + b[1..];
      assert multiset(a) == multiset{a[0]} + multiset(a[1..]);
      assert multiset(b) == multiset{b[0]} + multiset(b[1..]);
      assert b[0] == a[0];
      assert multiset(a[1..]) == multiset(a) - multiset{a[0]};
      assert multiset(b[1..]) == multiset(b) - multiset{b[0]};
      RankingUnique(a[1..], b[1..]);
    }
  }

  /** The sort of an enumerated row is its ranking. */
  lemma SortIsRanking(row: seq<int>)
    ensures IsRankingOf(SortByScore(Enumerate(row)), row)
  {
    SortIsRanked(Enumerate(row));
  }

  lemma EnumeratedMember(row: seq<int>, x: Scored)
    requires x in multiset(Enumerate(row))
    ensures x.pos < |row| && x.score == row[x.pos]
  {
  }

  /** `[1:6]` of the sorted pairs: the entries ranked second to sixth. */
  function Select(row: seq<int>): (r: seq<Scored>)
    ensures |r| == (if |row| <= 1 then 0 else Min(|row|, RecommendationCount + 1) - 1)
    ensures |r| <= RecommendationCount
    ensures forall k :: 0 <= k < |r| ==> r[k].pos < |row| && r[k].score == row[r[k].pos]
    ensures Ranked(r)
    ensures ScoreOrdered(r)
  {
    var ranked := SortByScore(Enumerate(row));
    SortIsRanking(row);
    if |ranked| <= 1 then []
    else
      var r := ranked[1..Min(|ranked|, RecommendationCount + 1)];
      assert forall k :: 0 <= k < |r| ==> r[k] == ranked[k + 1];
      assert forall x :: x in ranked ==> x.pos < |row| && x.score == row[x.pos] by {
        forall x | x in ranked
          ensures x.pos < |row| && x.score == row[x.pos]
        {
          EnumeratedMember(row, x);
        }
      }
      r
  }

  /** The selection is ranks two to six of any ranking of the row. */
  lemma SelectIsRanksTwoToSix(row: seq<int>, o: seq<Scored>)
    requires IsRankingOf(o, row)
    ensures Select(row) == (if |o| <= 1 then [] else o[1..Min(|o|, RecommendationCount + 1)])
  {
    SortIsRanking(row);
    RankingUnique(SortByScore(Enumerate(row)), o);
  }

  /** In a ranked sequence, an entry that outranks another comes first. */
  lemma RankedIndexOrder(s: seq<Scored>, a: nat, b: nat)
    requires Ranked(s) && a < |s| && b < |s|
    requires Outranks(s[a], s[b])
    ensures a < b
  {
  }

  /** Every entry between lo and hi is in the slice s[lo..hi]. */
  lemma SliceMembers(s: seq<Scored>, lo: nat, hi: nat)
    requires lo <= hi <= |s|
    ensures forall t :: lo <= t < hi ==> s[t] in s[lo..hi]
  {
    forall t | lo <= t < hi
      ensures s[t] in s[lo..hi]
    {
      assert s[lo..hi][t - lo] == s[t];
    }
  }

  /** Top-N: a position that is neither selected nor ranked first is
      outranked by every selected position. */
  lemma SelectedOutrankRest(row: seq<int>, i: nat, j: nat)
    requires i < |row| && j < |row|
    requires Outranks(Scored(i, row[i]), Scored(j, row[j]))
    requires Scored(j, row[j]) !in Select(row)
    ensures forall k :: 0 <= k < |Select(row)| ==> Outranks(Select(row)[k], Scored(j, row[j]))
  {
    var ranked := SortByScore(Enumerate(row));
    SortIsRanking(row);
    var e := Enumerate(row);
    assert e[i] == Scored(i, row[i]) && e[j] == Scored(j, row[j]);
    assert Scored(i, row[i]) in multiset(ranked) && Scored(j, row[j]) in multiset(ranked);
    var a :| 0 <= a < |ranked| && ranked[a] == Scored(i, row[i]);
    var m :| 0 <= m < |ranked| && ranked[m] == Scored(j, row[j]);
    RankedIndexOrder(ranked, a, m);
    var hi := Min(|ranked|, RecommendationCount + 1);
    var sel := Select(row);
    assert sel == ranked[1..hi];
    SliceMembers(ranked, 1, hi);
    assert m >= hi;
    forall k | 0 <= k < |sel|
      ensures Outranks(sel[k], Scored(j, row[j]))
    {
      assert sel[k] == ranked[k + 1];
    }
  }

  /** When the queried position scores strictly above every other position
      (a book is most similar to itself), it is not among the selection. */
  lemma SelfExcludedWhenStrictMax(row: seq<int>, q: nat)
    requires q < |row|
    requires forall j :: 0 <= j < |row| && j != q ==> row[j] < row[q]
    ensures forall k :: 0 <= k < |Select(row)| ==> Select(row)[k].pos != q
  {
    var ranked := SortByScore(Enumerate(row));
    SortIsRanking(row);
    var e := Enumerate(row);
    assert e[q] == Scored(q, row[q]);
    assert Scored(q, row[q]) in multiset(ranked);
    var m :| 0 <= m < |ranked| && ranked[m] == Scored(q, row[q]);
    EnumeratedMember(row, ranked[0]);
    assert m == 0;
    var sel := Select(row);
    assert sel == ranked[1..Min(|ranked|, RecommendationCount + 1)];
    forall k | 0 <= k < |sel|
      ensures sel[k].pos != q
    {
      assert sel[k] == ranked[k + 1];
      assert Outranks(ranked[0], ranked[k + 1]);
    }
  }

  /** The test "outranks x", for counting the pairs ranked above x. */
  function Beats(x: Scored): Scored -> bool {
    (y: Scored) => Outranks(y, x)
  }

  /** In a ranked sequence, the entries that outrank the one at index m are
      exactly those before it. */
  lemma RankedIndexIsCount(s: seq<Scored>, m: nat)
    requires Ranked(s) && m < |s|
    ensures Count(s, Beats(s[m])) == m
  {
    forall i | 0 <= i < |s|
      ensures Beats(s[m])(s[i]) <==> i < m
    {
      if i > m {
        assert Outranks(s[m], s[i]);
      }
    }
    CountPrefix(s, Beats(s[m]), m);
  }

  /** A position is recommended exactly when between one and five
      positions of its row outrank it: ranks two to six. */
  lemma SelectedIffRankTwoToSix(row: seq<int>, q: nat)
    requires q < |row|
    ensures Scored(q, row[q]) in Select(row)
            <==> 1 <= Count(Enumerate(row), Beats(Scored(q, row[q]))) <= RecommendationCount
  {
    var x := Scored(q, row[q]);
    var ranked := SortByScore(Enumerate(row));
    SortIsRanking(row);
    var e := Enumerate(row);
    assert e[q] == x;
    assert x in multiset(ranked);
    var m :| 0 <= m < |ranked| && ranked[m] == x;
    RankedIndexIsCount(ranked, m);
    CountPermutation(ranked, e, Beats(x));
    var sel := Select(row);
    if 1 <= m <= RecommendationCount {
      assert sel[m - 1] == ranked[m];
    }
    if x in sel {
      var k :| 0 <= k < |sel| && sel[k] == x;
      assert sel[k] == ranked[k + 1];
      assert k + 1 == m;
    }
  }
}
