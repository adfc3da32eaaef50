/**
 * The ranking of a search and the dimension rule of its latent projection.
 *
 * `sorted(zip(keys, similarities), key=lambda x: x[1], reverse=True)` is a
 * stable sort on descending score: the result is a permutation of the
 * pairs, ordered by non-increasing score, and pairs with equal scores keep
 * their original relative order. Scores are abstract ordered values
 * (`real`).
 */
module Ranking {

  /** One (document key, similarity) pair. */
  datatype Hit = Hit(key: string, score: real)

  /** `list(zip(keys, scores))`: pairs up to the shorter of the two. */
  function Zip(keys: seq<string>, scores: seq<real>): (hs: seq<Hit>)
    ensures |hs| == if |keys| <= |scores| then |keys| else |scores|
    ensures forall i :: 0 <= i < |hs| ==> hs[i] == Hit(keys[i], scores[i])
  {
    var n := if |keys| <= |scores| then |keys| else |scores|;
    seq(n, i requires 0 <= i < n => Hit(keys[i], scores[i]))
  }

  /** Non-increasing by score. */
  ghost predicate SortedDescending(hs: seq<Hit>) {
    forall i, j :: 0 <= i < j < |hs| ==> hs[i].score >= hs[j].score
  }

  /** The pairs of `hs` whose score is `v`, in their order. */
  function WithScore(hs: seq<Hit>, v: real): seq<Hit> {
    if hs == [] then []
    else (if hs[0].score == v then [hs[0]] else []) + WithScore(hs[1..], v)
  }

  /** The group of score `v` holds exactly the pairs of `hs` scoring `v`. */
  lemma {:induction false} WithScoreMembers(hs: seq<Hit>, v: real, h: Hit)
    ensures h in WithScore(hs, v) <==> h in hs && h.score == v
  {
    if hs != [] {
      WithScoreMembers(hs[1..], v, h);
      assert hs == [hs[0]] + hs[1..];
    }
  }

  /**
   * `r` is what a stable descending sort of `hs` returns: sorted, a
   * permutation, and every group of equal scores in its original order.
   */
  ghost predicate StableDescendingSortOf(r: seq<Hit>, hs: seq<Hit>) {
    && SortedDescending(r)
    && multiset(r) == multiset(hs)
    && forall v :: WithScore(r, v) == WithScore(hs, v)
  }

  lemma {:induction false} WithScoreAppend(a: seq<Hit>, b: seq<Hit>, v: real)
    ensures WithScore(a + b, v) == WithScore(a, v) + WithScore(b, v)
  {
    if a == [] {
      assert a + b == b;
    } else {
      assert (a + b)[0] == a[0];
      assert (a + b)[1..] == a[1..] + b;
      WithScoreAppend(a[1..], b, v);
    }
  }

  lemma WithScoreCons(x: Hit, t: seq<Hit>, v: real)
    ensures WithScore([x] + t, v) == (if x.score == v then [x] else []) + WithScore(t, v)
  {
    assert ([x] + t)[1..] == t;
  }

  lemma WithScoreNone(hs: seq<Hit>, v: real)
    requires forall h :: h in hs ==> h.score != v
    ensures WithScore(hs, v) == []
  {
    var r := WithScore(hs, v);
    if r != [] {
      WithScoreMembers(hs, v, r[0]);
    }
  }

  lemma SortedHeadIsMax(hs: seq<Hit>, x: Hit)
    requires SortedDescending(hs) && x in hs
    ensures x.score <= hs[0].score
  {
    var i :| 0 <= i < |hs| && hs[i] == x;
    if i > 0 {
      assert hs[0].score >= hs[i].score;
    }
  }

  /** The step of `Insert` that keeps the head and inserts into the tail. */
  lemma InsertBehind(sorted: seq<Hit>, h: Hit, rest: seq<Hit>)
    requires SortedDescending(sorted) && sorted != [] && sorted[0].score >= h.score
    requires SortedDescending(rest)
    requires multiset(rest) == multiset(sorted[1..]) + multiset{h}
    ensures SortedDescending([sorted[0]] + rest)
    ensures multiset([sorted[0]] + rest) == multiset(sorted) + multiset{h}
  {
    var r := [sorted[0]] + rest;
    forall x | x in rest ensures x.score <= sorted[0].score {
      assert multiset(rest)[x] > 0;
      if x != h {
        assert x in sorted[1..];
        assert x in sorted;
        SortedHeadIsMax(sorted, x);
      }
    }
    forall i, j | 0 <= i < j < |r| ensures r[i].score >= r[j].score {
      if i == 0 {
        assert r[j] == rest[j - 1];
        assert rest[j - 1] in rest;
      } else {
        assert r[i] == rest[i - 1] && r[j] == rest[j - 1];
      }
    }
    assert sorted == [sorted[0]] + sorted[1..];
  }

  lemma GroupsBehind(sorted: seq<Hit>, h: Hit, rest: seq<Hit>)
    requires sorted != []
    requires forall v :: WithScore(rest, v) == WithScore(sorted[1..], v) + WithScore([h], v)
    ensures forall v :: WithScore([sorted[0]] + rest, v) == WithScore(sorted, v) + WithScore([h], v)
  {
    assert sorted == [sorted[0]] + sorted[1..];
    forall v ensures WithScore([sorted[0]] + rest, v) == WithScore(sorted, v) + WithScore([h], v) {
      WithScoreCons(sorted[0], rest, v);
      WithScoreCons(sorted[0], sorted[1..], v);
    }
  }

  /** The step of `Insert` that puts `h` in front of pairs that all score less. */
  lemma InsertInFront(sorted: seq<Hit>, h: Hit)
    requires SortedDescending(sorted) && sorted != [] && sorted[0].score < h.score
    ensures SortedDescending([h] + sorted)
    ensures forall v :: WithScore([h] + sorted, v) == WithScore(sorted, v) + WithScore([h], v)
  {
    forall x | x in sorted ensures x.score < h.score {
      SortedHeadIsMax(sorted, x);
    }
    var r := [h] + sorted;
    forall i, j | 0 <= i < j < |r| ensures r[i].score >= r[j].score {
      assert r[j] == sorted[j - 1];
      assert sorted[j - 1] in sorted;
      if i > 0 {
        assert r[i] == sorted[i - 1];
      }
    }
    WithScoreNone(sorted, h.score);
    forall v ensures WithScore(r, v) == WithScore(sorted, v) + WithScore([h], v) {
      WithScoreCons(h, sorted, v);
      WithScoreCons(h, [], v);
    }
  }

  /** Places `h` after every pair scoring at least as much: after all its equals. */
  function Insert(sorted: seq<Hit>, h: Hit): (r: seq<Hit>)
    requires SortedDescending(sorted)
    ensures SortedDescending(r)
    ensures multiset(r) == multiset(sorted) + multiset{h}
    ensures forall v :: WithScore(r, v) == WithScore(sorted, v) + WithScore([h], v)
  {
    if sorted == [] then [h]
    else if sorted[0].score >= h.score then
      var rest := Insert(sorted[1..], h);
      InsertBehind(sorted, h, rest);
      GroupsBehind(sorted, h, rest);
      [sorted[0]] + rest
    else
      InsertInFront(sorted, h);
      [h] + sorted
  }

  /** The ranking: each pair inserted, in the original order, behind its equals. */
  function Rank(hs: seq<Hit>): (r: seq<Hit>)
    ensures StableDescendingSortOf(r, hs)
  {
    if hs == [] then []
    else
      var init := hs[..|hs| - 1];
      var last := hs[|hs| - 1];
      assert hs == init + [last];
      assert forall v :: WithScore(hs, v) == WithScore(init, v) + WithScore([last], v) by {
        forall v { WithScoreAppend(init, [last], v); }
      }
      Insert(Rank(init), last)
  }

  /**
   * The three properties pin the result down: two sequences, both sorted
   * descending and with the same pairs in every score group, are equal.
   */
  lemma {:induction false} StableSortUnique(a: seq<Hit>, b: seq<Hit>)
    requires SortedDescending(a) && SortedDescending(b)
    requires forall v :: WithScore(a, v) == WithScore(b, v)
    ensures a == b
  {
    if a != [] {
      WithScoreMembers(a, a[0].score, a[0]);
      WithScoreMembers(b, a[0].score, a[0]);
      assert b != [];
      WithScoreMembers(b, b[0].score, b[0]);
      WithScoreMembers(a, b[0].score, b[0]);
      SortedHeadIsMax(b, a[0]);
      SortedHeadIsMax(a, b[0]);
      var v := a[0].score;
      assert a == [a[0]] + a[1..];
      assert b == [b[0]] + b[1..];
      forall w ensures WithScore(a, w) == (if w == v then [a[0]] else []) + WithScore(a[1..], w)
                    && WithScore(b, w) == (if w == v then [b[0]] else []) + WithScore(b[1..], w) {
        WithScoreCons(a[0], a[1..], w);
        WithScoreCons(b[0], b[1..], w);
      }
      assert WithScore(a, v)[0] == a[0] && WithScore(b, v)[0] == b[0];
      assert b[0].score == v;
      forall w ensures WithScore(a[1..], w) == WithScore(b[1..], w) {
        WithScoreCons(a[0], a[1..], w);
        WithScoreCons(b[0], b[1..], w);
        assert WithScore(a, w) == WithScore(b, w);
        if w == v {
          assert WithScore(a[1..], w) == WithScore(a, w)[1..];
          assert WithScore(b[1..], w) == WithScore(b, w)[1..];
        } else {
          assert WithScore(a[1..], w) == WithScore(a, w);
          assert WithScore(b[1..], w) == WithScore(b, w);
        }
      }
      StableSortUnique(a[1..], b[1..]);
    }
  }

  /** Any stable descending sort of `hs` is `Rank(hs)`; so `Rank` is Python's `sorted` here. */
  lemma RankIsTheStableSort(r: seq<Hit>, hs: seq<Hit>)
    requires StableDescendingSortOf(r, hs)
    ensures r == Rank(hs)
  {
    StableSortUnique(r, Rank(hs));
  }

  /** `min(100, vocabularySize - 1)`: the number of latent components. */
  const MaxComponents: int := 100

  function Components(vocabularySize: nat): (k: int)
    ensures k <= MaxComponents && k < vocabularySize
    ensures k == MaxComponents || k == vocabularySize - 1
    ensures k >= 1 <==> vocabularySize >= 2
  {
    if MaxComponents <= vocabularySize - 1 then MaxComponents else vocabularySize - 1
  }
}
