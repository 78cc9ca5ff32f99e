/** Ranking of risk entries: descending by score, ties kept in roster order.
    `Ranked` is the reference definition (a stable insertion sort);
    `BubbleSort` is the in-place adjacent-swap sort of the report and is
    proved to produce exactly `Ranked` of its input. */
module Ranking {

  /** One row of the risk list: a patient's name and computed score. */
  datatype RiskEntry = RiskEntry(name: string, score: int)

  /** Non-increasing by score. */
  predicate SortedDesc(s: seq<RiskEntry>) {
    forall i, j :: 0 <= i < j < |s| ==> s[i].score >= s[j].score
  }

  /** The entries of `s` whose score is `v`, in their order in `s`. */
  function WithScore(s: seq<RiskEntry>, v: int): (r: seq<RiskEntry>)
    ensures |r| <= |s|
    ensures forall i :: 0 <= i < |r| ==> r[i].score == v
  {
    if s == [] then [] else (if s[0].score == v then [s[0]] else []) + WithScore(s[1..], v)
  }

  /** `x` and `y` hold the same entries of every score, in the same relative
      order: `x` is a stable rearrangement of `y`. */
  ghost predicate SameTies(x: seq<RiskEntry>, y: seq<RiskEntry>) {
    forall v :: WithScore(x, v) == WithScore(y, v)
  }

  /** Inserts `e` in front of the first entry whose score does not exceed its own. */
  function Insert(e: RiskEntry, s: seq<RiskEntry>): (r: seq<RiskEntry>)
    ensures |r| == |s| + 1
  {
    if s == [] || s[0].score <= e.score then [e] + s
    else
      assert s == [s[0]] + s[1..];
      [s[0]] + Insert(e, s[1..])
  }

  /** The reference stable descending sort. */
  function Ranked(s: seq<RiskEntry>): (r: seq<RiskEntry>)
    ensures |r| == |s|
  {
    if s == [] then [] else Insert(s[0], Ranked(s[1..]))
  }

  lemma {:induction false} WithScoreAppend(x: seq<RiskEntry>, y: seq<RiskEntry>, v: int)
    ensures WithScore(x + y, v) == WithScore(x, v) + WithScore(y, v)
  {
    if x == [] {
      assert x + y == y;
    } else {
      var x0, rest := x[0], x[1..];
      assert x == [x0] + rest;
      assert x + y == [x0] + (rest + y);
      WithScoreAppend(rest, y, v);
      WithScoreCons(x0, rest + y, v);
      WithScoreCons(x0, rest, v);
      if x0.score == v {
        assert [x0] + (WithScore(rest, v) + WithScore(y, v)) == ([x0] + WithScore(rest, v)) + WithScore(y, v);
      }
    }
  }

  /** Filtering by score commutes with taking a prefix. */
  lemma {:induction false} WithScorePrefix(s: seq<RiskEntry>, k: nat, v: int)
    requires k <= |s|
    ensures WithScore(s[..k], v) <= WithScore(s, v)
  {
    assert s == s[..k] + s[k..];
    WithScoreAppend(s[..k], s[k..], v);
  }

  /** The score group of a list with a head entry in front. */
  lemma WithScoreCons(x: RiskEntry, s: seq<RiskEntry>, v: int)
    ensures x.score == v ==> WithScore([x] + s, v) == [x] + WithScore(s, v)
    ensures x.score != v ==> WithScore([x] + s, v) == WithScore(s, v)
  {
    assert ([x] + s)[1..] == s;
    if x.score != v {
      assert [] + WithScore(s, v) == WithScore(s, v);
    }
  }

  /** Insertion only moves `e` past entries with a strictly higher score, so it
      keeps the order of every group of equal scores. */
  lemma {:induction false} InsertTies(e: RiskEntry, s: seq<RiskEntry>, v: int)
    ensures WithScore(Insert(e, s), v) == WithScore([e] + s, v)
  {
    if s != [] && s[0].score > e.score {
      InsertTies(e, s[1..], v);
      InsertPastHigher(e, s, v);
    }
  }

  /** The inductive step of `InsertTies`: `e` moves past a head entry that
      scores strictly higher, which is never in the same group as `e`. */
  lemma InsertPastHigher(e: RiskEntry, s: seq<RiskEntry>, v: int)
    requires s != [] && s[0].score > e.score
    requires WithScore(Insert(e, s[1..]), v) == WithScore([e] + s[1..], v)
    ensures WithScore(Insert(e, s), v) == WithScore([e] + s, v)
  {
    var x, rest := s[0], s[1..];
    assert s == [x] + rest;
    assert Insert(e, s) == [x] + Insert(e, rest);
    WithScoreCons(x, Insert(e, rest), v);
    WithScoreCons(e, rest, v);
    WithScoreCons(x, rest, v);
    WithScoreCons(e, s, v);
  }

  /** Insertion adds exactly the inserted entry. */
  lemma {:induction false} InsertPermutation(e: RiskEntry, s: seq<RiskEntry>)
    ensures multiset(Insert(e, s)) == multiset(s) + multiset{e}
  {
    if s != [] && s[0].score > e.score {
      InsertPermutation(e, s[1..]);
      assert s == [s[0]] + s[1..];
    }
  }

  /** Inserting an entry under a score bound that the list respects keeps
      the list under that bound. */
  lemma {:induction false} InsertBounded(e: RiskEntry, s: seq<RiskEntry>, b: int)
    requires e.score <= b
    requires forall i :: 0 <= i < |s| ==> s[i].score <= b
    ensures forall i :: 0 <= i < |Insert(e, s)| ==> Insert(e, s)[i].score <= b
  {
    if s != [] && s[0].score > e.score {
      InsertBounded(e, s[1..], b);
      assert Insert(e, s) == [s[0]] + Insert(e, s[1..]);
    }
  }

  /** Insertion into a descending list keeps it descending. */
  lemma {:induction false} InsertSorted(e: RiskEntry, s: seq<RiskEntry>)
    requires SortedDesc(s)
    ensures SortedDesc(Insert(e, s))
    decreases |s|
  {
    if s != [] && s[0].score > e.score {
      InsertSorted(e, s[1..]);
      InsertBounded(e, s[1..], s[0].score);
      assert Insert(e, s) == [s[0]] + Insert(e, s[1..]);
    }
  }

  /** The reference sort is stable: every group of equal scores keeps its order. */
  lemma RankedTies(s: seq<RiskEntry>)
    ensures SameTies(Ranked(s), s)
  {
    forall v ensures WithScore(Ranked(s), v) == WithScore(s, v) {
      RankedTiesAt(s, v);
    }
  }

  lemma {:induction false} RankedTiesAt(s: seq<RiskEntry>, v: int)
    ensures WithScore(Ranked(s), v) == WithScore(s, v)
  {
    if s != [] {
      var rest := Ranked(s[1..]);
      RankedTiesAt(s[1..], v);
      InsertTies(s[0], rest, v);
      WithScoreAppend([s[0]], rest, v);
      WithScoreAppend([s[0]], s[1..], v);
      assert [s[0]] + s[1..] == s;
    }
  }

  /** The reference sort is non-increasing by score. */
  lemma {:induction false} RankedSorted(s: seq<RiskEntry>)
    ensures SortedDesc(Ranked(s))
  {
    if s != [] {
      RankedSorted(s[1..]);
      InsertSorted(s[0], Ranked(s[1..]));
    }
  }

  /** An entry's multiplicity in `s` is its multiplicity in its score group. */
  lemma {:induction false} WithScoreCount(s: seq<RiskEntry>, e: RiskEntry)
    ensures multiset(WithScore(s, e.score))[e] == multiset(s)[e]
  {
    if s != [] {
      var x, rest := s[0], s[1..];
      WithScoreCount(rest, e);
      assert s == [x] + rest;
      WithScoreCons(x, rest, e.score);
      assert multiset(s) == multiset{x} + multiset(rest);
      if x.score == e.score {
        assert multiset(WithScore(s, e.score)) == multiset{x} + multiset(WithScore(rest, e.score));
      }
    }
  }

  /** Agreement on every score group makes two lists permutations of each other. */
  lemma TiesArePermutation(x: seq<RiskEntry>, y: seq<RiskEntry>)
    requires SameTies(x, y)
    ensures multiset(x) == multiset(y)
  {
    forall e ensures multiset(x)[e] == multiset(y)[e] {
      WithScoreCount(x, e);
      WithScoreCount(y, e);
    }
  }

  /** A stable descending order is unique: two lists sorted by score that agree
      on every score group are equal. */
  lemma {:induction false} StableOrderUnique(x: seq<RiskEntry>, y: seq<RiskEntry>)
    requires SortedDesc(x) && SortedDesc(y)
    requires SameTies(x, y)
    ensures x == y
    decreases |x|
  {
    TiesArePermutation(x, y);
    assert |x| == |multiset(x)| == |multiset(y)| == |y|;
    if x != [] {
      var vx, vy := x[0].score, y[0].score;
      if vx > vy {
        NoneAbove(y, vx);
        assert false;
      } else if vy > vx {
        NoneAbove(x, vy);
        assert false;
      } else {
        assert WithScore(x, vx)[0] == x[0];
        assert WithScore(y, vx)[0] == y[0];
        forall v ensures WithScore(x[1..], v) == WithScore(y[1..], v) {
          if v == vx {
            assert WithScore(x[1..], v) == WithScore(x, v)[1..];
            assert WithScore(y[1..], v) == WithScore(y, v)[1..];
          } else {
            assert WithScore(x[1..], v) == WithScore(x, v);
            assert WithScore(y[1..], v) == WithScore(y, v);
          }
        }
        StableOrderUnique(x[1..], y[1..]);
        assert x == [x[0]] + x[1..] && y == [y[0]] + y[1..];
      }
    }
  }

  /** In a sorted list no entry scores above the head's score. */
  lemma {:induction false} NoneAbove(s: seq<RiskEntry>, v: int)
    requires SortedDesc(s) && s != [] && s[0].score < v
    ensures WithScore(s, v) == []
    decreases |s|
  {
    if |s| > 1 {
      NoneAbove(s[1..], v);
    }
  }

  lemma SameTiesTransitive(x: seq<RiskEntry>, y: seq<RiskEntry>, z: seq<RiskEntry>)
    requires SameTies(x, y) && SameTies(y, z)
    ensures SameTies(x, z)
  {
  }

  /** Swapping two adjacent entries with different scores keeps every score group. */
  lemma SwapAdjacentTies(s: seq<RiskEntry>, j: nat)
    requires j + 1 < |s| && s[j].score != s[j + 1].score
    ensures SameTies(s[j := s[j + 1]][j + 1 := s[j]], s)
  {
    var t := s[j := s[j + 1]][j + 1 := s[j]];
    assert s == s[..j] + [s[j], s[j + 1]] + s[j + 2..];
    assert t == s[..j] + [s[j + 1], s[j]] + s[j + 2..];
    forall v ensures WithScore(t, v) == WithScore(s, v) {
      WithScoreAppend(s[..j] + [s[j], s[j + 1]], s[j + 2..], v);
      WithScoreAppend(s[..j], [s[j], s[j + 1]], v);
      WithScoreAppend(s[..j] + [s[j + 1], s[j]], s[j + 2..], v);
      WithScoreAppend(s[..j], [s[j + 1], s[j]], v);
    }
  }

  /** Once `m` passes are done, the last `m` positions hold their final
      entries: each scores no higher than anything before it. */
  ghost predicate SettledSuffix(s: seq<RiskEntry>, m: nat) {
    forall k, l :: 0 <= k < l < |s| && |s| - m <= l ==> s[k].score >= s[l].score
  }

  /** What one pass has established after comparing the pairs before
      position `j`: the suffix settled by earlier passes, position `j`
      holding the lowest score so far, and, once `j` has reached the position
      this pass settles, that position holding the lowest score before it. */
  ghost predicate PassInvariant(s: seq<RiskEntry>, m: nat, j: nat)
    requires m < |s| && j < |s|
  {
    && SettledSuffix(s, m)
    && (forall k :: 0 <= k <= j ==> s[k].score >= s[j].score)
    && (|s| - m - 1 <= j ==> forall k :: 0 <= k < |s| - m - 1 ==> s[k].score >= s[|s| - m - 1].score)
  }

  /** The pair at `j` in order: swapped when the left score is strictly lower. */
  function CompareSwap(s: seq<RiskEntry>, j: nat): (t: seq<RiskEntry>)
    requires j + 1 < |s|
    ensures |t| == |s| && t[j].score >= t[j + 1].score
    ensures multiset{t[j], t[j + 1]} == multiset{s[j], s[j + 1]}
    ensures forall k :: 0 <= k < |s| && k != j && k != j + 1 ==> t[k] == s[k]
  {
    if s[j].score < s[j + 1].score then s[j := s[j + 1]][j + 1 := s[j]] else s
  }

  /** One compare-and-swap step advances the pass by one pair. */
  lemma PassStep(s: seq<RiskEntry>, m: nat, j: nat)
    requires m < |s| && j + 1 < |s|
    requires PassInvariant(s, m, j)
    ensures PassInvariant(CompareSwap(s, j), m, j + 1)
  {
    var t := CompareSwap(s, j);
    if s[j].score < s[j + 1].score {
      assert j + 1 < |s| - m;
      assert forall k :: 0 <= k < |s| && k != j && k != j + 1 ==> t[k] == s[k];
    }
  }

  /** A compare-and-swap step keeps every score group. */
  lemma CompareSwapTies(s: seq<RiskEntry>, j: nat, orig: seq<RiskEntry>)
    requires j + 1 < |s| && SameTies(s, orig)
    ensures SameTies(CompareSwap(s, j), orig)
  {
    if s[j].score < s[j + 1].score {
      SwapAdjacentTies(s, j);
      SameTiesTransitive(CompareSwap(s, j), s, orig);
    }
  }

  /** A pass that has compared every pair has settled one more position. */
  lemma PassDone(s: seq<RiskEntry>, m: nat)
    requires m < |s| && PassInvariant(s, m, |s| - 1)
    ensures SettledSuffix(s, m + 1)
  {
  }

  /** One pass of the report's sort: every adjacent pair, left to right, swapped
      when the left score is strictly lower. It settles one more position. */
  method BubblePass(a: array<RiskEntry>, ghost m: nat)
    requires m < a.Length && SettledSuffix(a[..], m)
    modifies a
    ensures SettledSuffix(a[..], m + 1)
    ensures SameTies(a[..], old(a[..]))
  {
    var n := a.Length;
    for j := 0 to n - 1
      invariant SameTies(a[..], old(a[..]))
      invariant PassInvariant(a[..], m, j)
    {
      ghost var before := a[..];
      PassStep(before, m, j);
      CompareSwapTies(before, j, old(a[..]));
      if a[j].score < a[j + 1].score {
        a[j], a[j + 1] := a[j + 1], a[j];
      }
      assert a[..] == CompareSwap(before, j);
    }
    PassDone(a[..], m);
  }

  /** The report's sort: `len(r)` passes over the list. The result is the
      reference ranking of the input: sorted, a permutation, and stable. */
  method BubbleSort(a: array<RiskEntry>)
    modifies a
    ensures a[..] == Ranked(old(a[..]))
    ensures SortedDesc(a[..]) && multiset(a[..]) == multiset(old(a[..]))
  {
    var n := a.Length;
    for i := 0 to n
      invariant SameTies(a[..], old(a[..]))
      invariant SettledSuffix(a[..], i)
    {
      ghost var before := a[..];
      BubblePass(a, i);
      SameTiesTransitive(a[..], before, old(a[..]));
    }
    RankedSorted(old(a[..]));
    RankedTies(old(a[..]));
    StableOrderUnique(a[..], Ranked(old(a[..])));
    TiesArePermutation(a[..], old(a[..]));
  }
}
