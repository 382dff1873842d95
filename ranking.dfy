/**
 * `print_top`: collect the (author, score) entries of a score map, sort them
 * by score, highest first, and keep the first ten. The model returns those
 * entries instead of printing them.
 */
module Ranking {
  import opened SetFacts

  /** How many entries `print_top` shows. */
  const TopCount: nat := 10

  predicate SortedByScore(s: seq<(nat, nat)>) {
    forall i, j :: 0 <= i < j < |s| ==> s[i].1 >= s[j].1
  }

  predicate DistinctIds(s: seq<(nat, nat)>) {
    forall i, j :: 0 <= i < j < |s| ==> s[i].0 != s[j].0
  }

  /** Every entry of `s` is an (id, score) pair of `m`. */
  predicate EntriesOf(m: map<nat, nat>, s: seq<(nat, nat)>) {
    forall i :: 0 <= i < |s| ==> s[i].0 in m && m[s[i].0] == s[i].1
  }

  function Ids(s: seq<(nat, nat)>): set<nat> {
    set i | 0 <= i < |s| :: s[i].0
  }

  function Min(a: nat, b: nat): nat {
    if a <= b then a else b
  }

  /**
   * `top` is a ranking `print_top` may show for `m`: ten entries, or all of
   * them if there are fewer; pairs of `m`, each author once, in non-increasing
   * score order; and no author left out scores above the last one shown.
   * Ties may come in either order, as the map's iteration order decides.
   */
  ghost predicate IsTopRanking(m: map<nat, nat>, top: seq<(nat, nat)>) {
    && |top| == Min(TopCount, |m|)
    && SortedByScore(top)
    && EntriesOf(m, top)
    && DistinctIds(top)
    && (forall id :: id in m && id !in Ids(top) ==> |top| == TopCount && m[id] <= top[TopCount - 1].1)
  }

  /** `centrality.iter().collect()`: every entry once, in whatever order the map yields them. */
  method Entries(m: map<nat, nat>) returns (entries: seq<(nat, nat)>)
    ensures |entries| == |m| && EntriesOf(m, entries) && DistinctIds(entries)
    ensures forall id :: id in m ==> (id, m[id]) in entries
  {
    entries := [];
    var rest := m.Keys;
    ghost var done: set<nat> := {};
    while rest != {}
      invariant done + rest == m.Keys && done !! rest
      invariant Listed(m, entries, done)
      decreases |rest|
    {
      var id :| id in rest;
      MoveOne(done, rest, m.Keys, id);
      ListOne(m, entries, done, id);
      entries := entries + [(id, m[id])];
      rest := rest - {id};
      done := done + {id};
    }
    assert done == m.Keys;
  }

  /** `entries` lists the entries of `m` whose ids are `done`, each once. */
  ghost predicate Listed(m: map<nat, nat>, entries: seq<(nat, nat)>, done: set<nat>) {
    && done <= m.Keys
    && |entries| == |done|
    && EntriesOf(m, entries) && DistinctIds(entries)
    && (forall i :: 0 <= i < |entries| ==> entries[i].0 in done)
    && (forall id :: id in done ==> (id, m[id]) in entries)
  }

  lemma ListOne(m: map<nat, nat>, entries: seq<(nat, nat)>, done: set<nat>, id: nat)
    requires Listed(m, entries, done) && id in m && id !in done
    ensures Listed(m, entries + [(id, m[id])], done + {id})
  {
    var longer := entries + [(id, m[id])];
    assert forall i :: 0 <= i < |entries| ==> longer[i] == entries[i];
  }

  /**
   * `sort_by(|a, b| b.1.cmp(a.1))`: a stable sort, highest score first. Each
   * entry moves left past the entries with a strictly lower score.
   */
  method SortByScore(a: array<(nat, nat)>)
    modifies a
    ensures SortedByScore(a[..])
    ensures multiset(a[..]) == multiset(old(a[..]))
  {
    var i := 0;
    while i < a.Length
      invariant 0 <= i <= a.Length
      invariant SortedByScore(a[..i])
      invariant multiset(a[..]) == multiset(old(a[..]))
    {
      InsertLast(a, i);
      i := i + 1;
    }
    assert a[..i] == a[..];
  }

  /** Move `a[i]` left into the sorted prefix `a[..i]`. */
  method InsertLast(a: array<(nat, nat)>, i: nat)
    requires i < a.Length && SortedByScore(a[..i])
    modifies a
    ensures SortedByScore(a[..i + 1])
    ensures multiset(a[..]) == multiset(old(a[..]))
    ensures a[i + 1..] == old(a[i + 1..])
  {
    var j := i;
    InsertStarts(a[..], i);
    while j > 0 && a[j - 1].1 < a[j].1
      invariant 0 <= j <= i < a.Length
      invariant Inserting(a[..], i, j)
      invariant multiset(a[..]) == multiset(old(a[..]))
      invariant a[i + 1..] == old(a[i + 1..])
    {
      ghost var before := a[..];
      a[j - 1], a[j] := a[j], a[j - 1];
      assert a[..] == before[j - 1 := before[j]][j := before[j - 1]];
      SwapStep(before, a[..], i, j);
      j := j - 1;
    }
    InsertEnds(a[..], i, j);
  }

  /**
   * Part way through inserting `s[j]`: apart from position `j`, `s[..i + 1]` is in
   * order, and `s[j]` beats everything after it.
   */
  ghost predicate Inserting(s: seq<(nat, nat)>, i: nat, j: nat) {
    && j <= i < |s|
    && (forall p, q :: 0 <= p < q <= i && p != j && q != j ==> s[p].1 >= s[q].1)
    && (forall q :: j < q <= i ==> s[j].1 > s[q].1)
  }

  lemma InsertStarts(s: seq<(nat, nat)>, i: nat)
    requires i < |s| && SortedByScore(s[..i])
    ensures Inserting(s, i, i)
  {
    forall p, q | 0 <= p < q <= i && p != i && q != i ensures s[p].1 >= s[q].1 {
      assert s[p] == s[..i][p] && s[q] == s[..i][q];
    }
  }

  lemma SwapStep(s: seq<(nat, nat)>, t: seq<(nat, nat)>, i: nat, j: nat)
    requires 0 < j && Inserting(s, i, j) && s[j - 1].1 < s[j].1
    requires t == s[j - 1 := s[j]][j := s[j - 1]]
    ensures Inserting(t, i, j - 1) && multiset(t) == multiset(s)
  {
  }

  lemma InsertEnds(s: seq<(nat, nat)>, i: nat, j: nat)
    requires Inserting(s, i, j) && (j == 0 || s[j - 1].1 >= s[j].1)
    ensures SortedByScore(s[..i + 1])
  {
    forall p, q | 0 <= p < q <= i ensures s[p].1 >= s[q].1 {
      if p != j && q != j {
      } else if q == j {
        assert s[p].1 >= s[j - 1].1 || p == j - 1;
      }
    }
  }

  /** `print_top`'s ranking: sort the entries by score and keep the first ten. */
  method TopRanked(m: map<nat, nat>) returns (top: seq<(nat, nat)>)
    ensures IsTopRanking(m, top)
  {
    var entries := Entries(m);
    var a := new (nat, nat)[|entries|](i requires 0 <= i < |entries| => entries[i]);
    assert a[..] == entries;
    SortByScore(a);
    var k := Min(TopCount, a.Length);
    top := a[..k];
    TopOfSorted(m, entries, a[..], k);
  }

  // ---------------------------------------------------------------------------
  // Why the first ten of the sorted entries form a top ranking
  // ---------------------------------------------------------------------------

  lemma RepeatCounts(s: seq<(nat, nat)>, i: nat, j: nat)
    requires i < j < |s|
    ensures s[i] == s[j] ==> multiset(s)[s[i]] >= 2
  {
    assert s == s[..j] + [s[j]] + s[j + 1..];
    assert s[..j][i] == s[i];
    assert multiset(s) == multiset(s[..j]) + multiset([s[j]]) + multiset(s[j + 1..]);
  }

  lemma {:induction false} DistinctCounts(s: seq<(nat, nat)>, x: (nat, nat))
    requires DistinctIds(s)
    ensures multiset(s)[x] <= 1
  {
    if s != [] {
      var init := s[..|s| - 1];
      assert s == init + [s[|s| - 1]];
      assert DistinctIds(init);
      DistinctCounts(init, x);
      if x == s[|s| - 1] {
        assert x !in init;
      }
    }
  }

  /** An arrangement of entries with distinct ids has distinct ids too. */
  lemma PermutationKeepsDistinct(m: map<nat, nat>, s: seq<(nat, nat)>, t: seq<(nat, nat)>)
    requires multiset(s) == multiset(t) && EntriesOf(m, t) && DistinctIds(t)
    ensures EntriesOf(m, s) && DistinctIds(s)
  {
    forall i | 0 <= i < |s| ensures s[i].0 in m && m[s[i].0] == s[i].1 {
      assert s[i] in multiset(t);
      var p :| 0 <= p < |t| && t[p] == s[i];
    }
    forall i, j | 0 <= i < j < |s| ensures s[i].0 != s[j].0 {
      RepeatCounts(s, i, j);
      DistinctCounts(t, s[i]);
      assert s[i] != s[j];
    }
  }

  lemma TopOfSorted(m: map<nat, nat>, entries: seq<(nat, nat)>, sorted: seq<(nat, nat)>, k: nat)
    requires |entries| == |m| && EntriesOf(m, entries) && DistinctIds(entries)
    requires forall id :: id in m ==> (id, m[id]) in entries
    requires multiset(sorted) == multiset(entries) && SortedByScore(sorted)
    requires k == Min(TopCount, |sorted|)
    ensures IsTopRanking(m, sorted[..k])
  {
    assert |sorted| == |multiset(sorted)| == |entries|;
    PermutationKeepsDistinct(m, sorted, entries);
    var top := sorted[..k];
    PrefixKeeps(m, sorted, k);
    forall id | id in m && id !in Ids(top) ensures |top| == TopCount && m[id] <= top[TopCount - 1].1 {
      assert (id, m[id]) in multiset(entries);
      assert (id, m[id]) in sorted;
      LeftOutScoresLower(sorted, k, id, m[id]);
    }
  }

  /** An entry of a sorted list that is not among its first `k` comes after a full top ten, and scores no higher. */
  lemma LeftOutScoresLower(sorted: seq<(nat, nat)>, k: nat, id: nat, score: nat)
    requires SortedByScore(sorted) && k == Min(TopCount, |sorted|)
    requires (id, score) in sorted && id !in Ids(sorted[..k])
    ensures k == TopCount && score <= sorted[..k][TopCount - 1].1
  {
    var top := sorted[..k];
    var p :| 0 <= p < |sorted| && sorted[p] == (id, score);
    assert forall q :: 0 <= q < k ==> top[q].0 in Ids(top);
    assert p >= k;
    assert top[TopCount - 1] == sorted[TopCount - 1];
  }

  /** A prefix of a sorted list of distinct entries is one too. */
  lemma PrefixKeeps(m: map<nat, nat>, s: seq<(nat, nat)>, k: nat)
    requires SortedByScore(s) && EntriesOf(m, s) && DistinctIds(s) && k <= |s|
    ensures SortedByScore(s[..k]) && EntriesOf(m, s[..k]) && DistinctIds(s[..k])
  {
    assert forall p :: 0 <= p < k ==> s[..k][p] == s[p];
  }

  // ---------------------------------------------------------------------------
  // Properties of a top ranking
  // ---------------------------------------------------------------------------

  lemma {:induction false} IdsCount(s: seq<(nat, nat)>)
    requires DistinctIds(s)
    ensures |Ids(s)| == |s|
  {
    if s != [] {
      var init := s[..|s| - 1];
      assert DistinctIds(init);
      IdsCount(init);
      assert Ids(s) == Ids(init) + {s[|s| - 1].0};
      assert s[|s| - 1].0 !in Ids(init);
    }
  }

  /** A map of at most ten entries is shown whole. */
  lemma SmallMapsShownWhole(m: map<nat, nat>, top: seq<(nat, nat)>)
    requires IsTopRanking(m, top) && |m| <= TopCount
    ensures Ids(top) == m.Keys
  {
    IdsCount(top);
    assert Ids(top) <= m.Keys;
    SubsetCard(Ids(top), m.Keys);
  }

  /** The authors of `m` scoring above `t`. */
  ghost function Above(m: map<nat, nat>, t: nat): set<nat> {
    set id | id in m.Keys && m[id] > t
  }

  /** The authors of `m` scoring `t` or more. */
  ghost function AtLeast(m: map<nat, nat>, t: nat): set<nat> {
    set id | id in m.Keys && m[id] >= t
  }

  /** Everyone scoring above position `i` of a ranking is shown before it, so there are at most `i` of them. */
  lemma AboveFitBefore(m: map<nat, nat>, r: seq<(nat, nat)>, i: nat)
    requires IsTopRanking(m, r) && i < |r|
    ensures |Above(m, r[i].1)| <= i
  {
    var before := r[..i];
    forall id | id in Above(m, r[i].1) ensures id in Ids(before) {
      assert |r| == TopCount ==> r[TopCount - 1].1 <= r[i].1;
      assert id in Ids(r);
      var q :| 0 <= q < |r| && r[q].0 == id;
      assert r[q].1 > r[i].1;
      assert q < i;
      assert before[q].0 == id;
    }
    assert DistinctIds(before);
    IdsCount(before);
    SubsetCard(Above(m, r[i].1), Ids(before));
  }

  /** The first i + 1 authors shown all score at least the score at position `i`. */
  lemma AtLeastShown(m: map<nat, nat>, r: seq<(nat, nat)>, i: nat)
    requires IsTopRanking(m, r) && i < |r|
    ensures |AtLeast(m, r[i].1)| >= i + 1
  {
    var upto := r[..i + 1];
    forall id | id in Ids(upto) ensures id in AtLeast(m, r[i].1) {
      var p :| 0 <= p < |upto| && upto[p].0 == id;
      assert r[p] == upto[p];
    }
    assert DistinctIds(upto);
    IdsCount(upto);
    SubsetCard(Ids(upto), AtLeast(m, r[i].1));
  }

  lemma ThresholdOrder(m: map<nat, nat>, a: nat, b: nat)
    ensures b > a ==> |AtLeast(m, b)| <= |Above(m, a)|
  {
    if b > a {
      SubsetCard(AtLeast(m, b), Above(m, a));
    }
  }

  /**
   * Two top rankings of one map show the same scores in the same order: the
   * map's iteration order can only swap authors with equal scores.
   */
  lemma ScoresDetermined(m: map<nat, nat>, top1: seq<(nat, nat)>, top2: seq<(nat, nat)>, i: nat)
    requires IsTopRanking(m, top1) && IsTopRanking(m, top2) && i < |top1|
    ensures |top2| == |top1| && top2[i].1 == top1[i].1
  {
    AboveFitBefore(m, top1, i);
    AboveFitBefore(m, top2, i);
    AtLeastShown(m, top1, i);
    AtLeastShown(m, top2, i);
    ThresholdOrder(m, top1[i].1, top2[i].1);
    ThresholdOrder(m, top2[i].1, top1[i].1);
  }

  // ---------------------------------------------------------------------------
  // Example
  // ---------------------------------------------------------------------------

  /** Authors 1 and 3 tie at 5, so either comes first; the scores shown are 5, 5, 3, 1 whatever the order. */
  lemma TieExample(r: seq<(nat, nat)>)
    requires IsTopRanking(map[1 := 5, 2 := 3, 3 := 5, 4 := 1], r)
    ensures |r| == 4 && r[0].1 == 5 && r[1].1 == 5 && r[2].1 == 3 && r[3].1 == 1
  {
    var m := map[1 := 5, 2 := 3, 3 := 5, 4 := 1];
    var shown := [(1, 5), (3, 5), (2, 3), (4, 1)];
    TieShown(m, shown);
    ScoresDetermined(m, shown, r, 0);
    ScoresDetermined(m, shown, r, 1);
    ScoresDetermined(m, shown, r, 2);
    ScoresDetermined(m, shown, r, 3);
  }

  lemma TieShown(m: map<nat, nat>, shown: seq<(nat, nat)>)
    requires m == map[1 := 5, 2 := 3, 3 := 5, 4 := 1]
    requires shown == [(1, 5), (3, 5), (2, 3), (4, 1)]
    ensures IsTopRanking(m, shown)
  {
    assert m.Keys == {1, 2, 3, 4};
    assert |m| == |m.Keys| == 4;
    assert Ids(shown) == {1, 2, 3, 4} by {
      assert shown[0].0 == 1 && shown[1].0 == 3 && shown[2].0 == 2 && shown[3].0 == 4;
    }
    TieSorted(shown);
    TieEntries(m, shown);
  }

  lemma TieSorted(shown: seq<(nat, nat)>)
    requires shown == [(1, 5), (3, 5), (2, 3), (4, 1)]
    ensures SortedByScore(shown) && DistinctIds(shown)
  {
  }

  lemma TieEntries(m: map<nat, nat>, shown: seq<(nat, nat)>)
    requires m == map[1 := 5, 2 := 3, 3 := 5, 4 := 1]
    requires shown == [(1, 5), (3, 5), (2, 3), (4, 1)]
    ensures EntriesOf(m, shown)
  {
  }
}
