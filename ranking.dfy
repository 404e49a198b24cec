/**
 * Ranking of scored chunk indices, as both search paths do it: the list of
 * `(index, score)` pairs is sorted with Python's stable sort by score with
 * `reverse=True`, so the result is ordered by score descending and, among
 * equal scores, by index ascending; the first `k` entries are then taken.
 *
 * `IsRanking` says what a correct stable descending sort returns, `RankOrder`
 * computes one (an insertion sort), and `RankingUnique` shows that there is
 * only one, so `RankOrder` is exactly what `list.sort(key=..., reverse=True)` yields.
 */
module Ranking {

  /** Index `i` comes before index `j`: higher score, or equal score and smaller index. */
  predicate Before(s: seq<real>, i: nat, j: nat) {
    i < |s| && j < |s| && (s[i] > s[j] || (s[i] == s[j] && i < j))
  }

  /** Every entry is an index of `s`, and each entry comes before every later one. */
  predicate StrictlyRanked(s: seq<real>, order: seq<nat>) {
    && (forall a :: 0 <= a < |order| ==> order[a] < |s|)
    && (forall a, b :: 0 <= a < b < |order| ==> Before(s, order[a], order[b]))
  }

  /** `order` is the sorted list of all indices of `s`, as the stable descending sort returns it. */
  predicate IsRanking(s: seq<real>, order: seq<nat>) {
    && |order| == |s|
    && StrictlyRanked(s, order)
    && (forall i :: 0 <= i < |s| ==> i in order)
  }

  /** Insert index `i` into a ranked list at its place. */
  function Insert(s: seq<real>, order: seq<nat>, i: nat): seq<nat>
    decreases |order|
  {
    if order == [] then [i]
    else if Before(s, i, order[0]) then [i] + order
    else [order[0]] + Insert(s, order[1..], i)
  }

  /** The ranking of the indices `0 .. n - 1`. */
  function RankPrefix(s: seq<real>, n: nat): seq<nat>
    requires n <= |s|
  {
    if n == 0 then [] else Insert(s, RankPrefix(s, n - 1), n - 1)
  }

  /** The order in which `list.sort(key=score, reverse=True)` leaves the indices of `s`. */
  function RankOrder(s: seq<real>): seq<nat> {
    RankPrefix(s, |s|)
  }

  /** The first `k` entries of a ranking (`scores[:k]`). */
  function Top(order: seq<nat>, k: nat): (top: seq<nat>)
    ensures |top| == if k < |order| then k else |order|
    ensures forall a :: 0 <= a < |top| ==> top[a] == order[a]
  {
    if k < |order| then order[..k] else order
  }

  // ---------------------------------------------------------------------------
  // The sort is correct and its result is unique

  lemma BeforeTotal(s: seq<real>, i: nat, j: nat)
    requires i < |s| && j < |s| && i != j
    ensures Before(s, i, j) != Before(s, j, i)
  {
  }

  lemma RankedCons(s: seq<real>, x: nat, order: seq<nat>)
    requires x < |s| && StrictlyRanked(s, order)
    requires forall a :: 0 <= a < |order| ==> Before(s, x, order[a])
    ensures StrictlyRanked(s, [x] + order)
  {
    var r := [x] + order;
    forall a, b | 0 <= a < b < |r| ensures Before(s, r[a], r[b]) {
      assert r[b] == order[b - 1];
      if a > 0 { assert r[a] == order[a - 1]; }
    }
  }

  lemma RankedTail(s: seq<real>, order: seq<nat>)
    requires order != [] && StrictlyRanked(s, order)
    ensures StrictlyRanked(s, order[1..])
    ensures forall a :: 0 <= a < |order| - 1 ==> Before(s, order[0], order[1..][a])
  {
    var t := order[1..];
    forall a, b | 0 <= a < b < |t| ensures Before(s, t[a], t[b]) {
      assert t[a] == order[a + 1] && t[b] == order[b + 1];
    }
    forall a | 0 <= a < |t| ensures Before(s, order[0], t[a]) {
      assert t[a] == order[a + 1];
    }
  }

  /** Inserting a new index keeps the list ranked and adds exactly that index. */
  lemma {:induction false} InsertRanked(s: seq<real>, order: seq<nat>, i: nat)
    requires i < |s| && i !in order && StrictlyRanked(s, order)
    ensures |Insert(s, order, i)| == |order| + 1
    ensures forall x :: x in Insert(s, order, i) <==> x in order || x == i
    ensures StrictlyRanked(s, Insert(s, order, i))
    decreases |order|
  {
    if order == [] {
    } else if Before(s, i, order[0]) {
      forall a | 0 <= a < |order| ensures Before(s, i, order[a]) {
        if a > 0 {
          assert Before(s, order[0], order[a]);
        }
      }
      RankedCons(s, i, order);
    } else {
      var x := order[0];
      var rest := order[1..];
      assert order == [x] + rest;
      RankedTail(s, order);
      InsertRanked(s, rest, i);
      var ins := Insert(s, rest, i);
      assert i != x;
      BeforeTotal(s, i, x);
      forall a | 0 <= a < |ins| ensures Before(s, x, ins[a]) {
        assert ins[a] in ins;
        if ins[a] != i {
          var b :| 0 <= b < |rest| && rest[b] == ins[a];
        }
      }
      RankedCons(s, x, ins);
    }
  }

  lemma {:induction false} RankPrefixRanked(s: seq<real>, n: nat)
    requires n <= |s|
    ensures |RankPrefix(s, n)| == n
    ensures forall x: nat :: x in RankPrefix(s, n) <==> x < n
    ensures StrictlyRanked(s, RankPrefix(s, n))
    decreases n
  {
    if n > 0 {
      RankPrefixRanked(s, n - 1);
      InsertRanked(s, RankPrefix(s, n - 1), n - 1);
    }
  }

  /** `RankOrder` is a stable descending sort of the indices of `s`. */
  lemma RankOrderIsRanking(s: seq<real>)
    ensures IsRanking(s, RankOrder(s))
  {
    RankPrefixRanked(s, |s|);
  }

  /** The head of a ranked list comes before every other entry of it. */
  lemma RankedHeadFirst(s: seq<real>, p: seq<nat>, x: nat)
    requires StrictlyRanked(s, p) && x in p && x != p[0]
    ensures Before(s, p[0], x)
  {
    var a :| 0 <= a < |p| && p[a] == x;
  }

  /** Two strictly ranked lists with the same entries start with the same entry. */
  lemma RankedSameHead(s: seq<real>, p: seq<nat>, q: seq<nat>)
    requires StrictlyRanked(s, p) && StrictlyRanked(s, q) && p != [] && q != []
    requires forall x :: x in p <==> x in q
    ensures p[0] == q[0]
  {
    assert p[0] in p && q[0] in q;
    if p[0] != q[0] {
      RankedHeadFirst(s, p, q[0]);
      RankedHeadFirst(s, q, p[0]);
      assert false;
    }
  }

  /** Past a common head, two strictly ranked lists with the same entries have the same remaining entries. */
  lemma RankedSameTail(s: seq<real>, p: seq<nat>, q: seq<nat>)
    requires StrictlyRanked(s, p) && StrictlyRanked(s, q) && p != [] && q != [] && p[0] == q[0]
    requires forall x :: x in p <==> x in q
    ensures forall x :: x in p[1..] <==> x in q[1..]
  {
    RankedTail(s, p);
    RankedTail(s, q);
    assert p == [p[0]] + p[1..];
    assert q == [q[0]] + q[1..];
    forall x | x in p[1..] ensures x in q[1..] {
      var a :| 0 <= a < |p[1..]| && p[1..][a] == x;
      assert Before(s, p[0], x) && x in p;
      var c :| 0 <= c < |q| && q[c] == x;
      assert c != 0 && q[1..][c - 1] == x;
    }
    forall x | x in q[1..] ensures x in p[1..] {
      var a :| 0 <= a < |q[1..]| && q[1..][a] == x;
      assert Before(s, q[0], x) && x in q;
      var c :| 0 <= c < |p| && p[c] == x;
      assert c != 0 && p[1..][c - 1] == x;
    }
  }

  /** Two strictly ranked lists with the same entries are the same list. */
  lemma {:induction false} RankedUnique(s: seq<real>, p: seq<nat>, q: seq<nat>)
    requires StrictlyRanked(s, p) && StrictlyRanked(s, q)
    requires forall x :: x in p <==> x in q
    ensures p == q
    decreases |p|
  {
    assert p != [] ==> p[0] in p;
    assert q != [] ==> q[0] in q;
    if p != [] && q != [] {
      RankedSameHead(s, p, q);
      RankedSameTail(s, p, q);
      RankedTail(s, p);
      RankedTail(s, q);
      RankedUnique(s, p[1..], q[1..]);
      assert p == [p[0]] + p[1..] && q == [q[0]] + q[1..];
    }
  }

  /** Any stable descending sort of the indices of `s` returns `RankOrder(s)`. */
  lemma RankingUnique(s: seq<real>, order: seq<nat>)
    requires IsRanking(s, order)
    ensures order == RankOrder(s)
  {
    RankOrderIsRanking(s);
    var r := RankOrder(s);
    forall x ensures x in order <==> x in r {
      if x in order {
        var a :| 0 <= a < |order| && order[a] == x;
      }
      if x in r {
        var a :| 0 <= a < |r| && r[a] == x;
      }
    }
    RankedUnique(s, order, r);
  }

  /** Equal scores keep their original order: `[0.0, 2.0, 2.0]` is ranked `[1, 2, 0]`. */
  lemma TiesKeepIndexOrder()
    ensures RankOrder([0.0, 2.0, 2.0]) == [1, 2, 0]
  {
    var s: seq<real> := [0.0, 2.0, 2.0];
    var order: seq<nat> := [1, 2, 0];
    assert IsRanking(s, order) by {
      assert forall i :: 0 <= i < 3 ==> i in order by {
        assert order[2] == 0 && order[0] == 1 && order[1] == 2;
      }
    }
    RankingUnique(s, order);
  }

  // ---------------------------------------------------------------------------
  // The first k entries

  /** An index left out of the first `k` entries means there were `k` entries, each ranked before it. */
  lemma TopIsBest(s: seq<real>, order: seq<nat>, k: nat, x: nat)
    requires IsRanking(s, order) && x < |s| && x !in Top(order, k)
    ensures k < |s|
    ensures forall y :: y in Top(order, k) ==> Before(s, y, x)
  {
    assert x in order;
    var p :| 0 <= p < |order| && order[p] == x;
    var top := Top(order, k);
    if k >= |s| {
      assert false;
    }
    assert p >= k;
    forall y | y in top ensures Before(s, y, x) {
      var a :| 0 <= a < |top| && top[a] == y;
    }
  }

  lemma TopRanked(s: seq<real>, order: seq<nat>, k: nat)
    requires StrictlyRanked(s, order)
    ensures StrictlyRanked(s, Top(order, k))
  {
  }

  // ---------------------------------------------------------------------------
  // The entries kept by `rag_bedrock.py`: a positive score and a stored chunk

  /** The selection test of `similarity_search` and `fallback_search`. */
  predicate Relevant(s: seq<real>, bound: nat, i: nat) {
    i < bound && i < |s| && s[i] > 0.0
  }

  /** The entries of `top`, in order, that pass the selection test. */
  function KeepRelevant(top: seq<nat>, s: seq<real>, bound: nat): (kept: seq<nat>)
    ensures |kept| <= |top|
    ensures forall a :: 0 <= a < |kept| ==> Relevant(s, bound, kept[a])
    decreases |top|
  {
    if top == [] then []
    else
      var last := top[|top| - 1];
      KeepRelevant(top[..|top| - 1], s, bound) + (if Relevant(s, bound, last) then [last] else [])
  }

  /** An index is kept exactly when it is among the first entries and passes the test. */
  lemma {:induction false} KeepRelevantMembers(top: seq<nat>, s: seq<real>, bound: nat)
    ensures forall x :: x in KeepRelevant(top, s, bound) <==> x in top && Relevant(s, bound, x)
    decreases |top|
  {
    if top != [] {
      var front := top[..|top| - 1];
      KeepRelevantMembers(front, s, bound);
      assert top == front + [top[|top| - 1]];
    }
  }

  /** The kept entries are still in ranking order. */
  lemma {:induction false} KeepRelevantRanked(top: seq<nat>, s: seq<real>, bound: nat)
    requires StrictlyRanked(s, top)
    ensures StrictlyRanked(s, KeepRelevant(top, s, bound))
    decreases |top|
  {
    if top != [] {
      var n := |top|;
      var front := top[..n - 1];
      var last := top[n - 1];
      var kf := KeepRelevant(front, s, bound);
      assert StrictlyRanked(s, front);
      KeepRelevantRanked(front, s, bound);
      if Relevant(s, bound, last) {
        KeepRelevantMembers(front, s, bound);
        var r := kf + [last];
        forall a, b | 0 <= a < b < |r| ensures Before(s, r[a], r[b]) {
          if b == |r| - 1 {
            assert r[a] in kf;
            var c :| 0 <= c < |front| && front[c] == r[a];
            assert Before(s, top[c], top[n - 1]);
          } else {
            assert r[a] == kf[a] && r[b] == kf[b];
          }
        }
      }
    }
  }

  /** The selection of `rag_bedrock.py` from a score list: the relevant ones among the first `k` ranked indices. */
  function SelectRelevant(s: seq<real>, k: nat, bound: nat): seq<nat> {
    KeepRelevant(Top(RankOrder(s), k), s, bound)
  }

  /**
   * At most `k` indices are selected, each with a positive score and a stored
   * chunk, in ranking order, and no index that passes the test is missed
   * unless `k` indices rank before it.
   */
  lemma SelectRelevantSpec(s: seq<real>, k: nat, bound: nat)
    ensures |SelectRelevant(s, k, bound)| <= k
    ensures forall i :: i in SelectRelevant(s, k, bound) ==> Relevant(s, bound, i)
    ensures StrictlyRanked(s, SelectRelevant(s, k, bound))
    ensures forall x :: 0 <= x < |s| && Relevant(s, bound, x) && x !in SelectRelevant(s, k, bound) ==>
      k < |s| && forall y :: y in Top(RankOrder(s), k) ==> Before(s, y, x)
  {
    var order := RankOrder(s);
    var top := Top(order, k);
    RankOrderIsRanking(s);
    KeepRelevantMembers(top, s, bound);
    TopRanked(s, order, k);
    KeepRelevantRanked(top, s, bound);
    forall x | 0 <= x < |s| && Relevant(s, bound, x) && x !in SelectRelevant(s, k, bound)
      ensures k < |s| && forall y :: y in top ==> Before(s, y, x)
    {
      TopIsBest(s, order, k, x);
    }
  }

  lemma {:induction false} KeepRelevantNone(top: seq<nat>, s: seq<real>, bound: nat)
    requires forall a :: 0 <= a < |top| ==> !Relevant(s, bound, top[a])
    ensures KeepRelevant(top, s, bound) == []
    decreases |top|
  {
    if top != [] {
      KeepRelevantNone(top[..|top| - 1], s, bound);
    }
  }

  /** When no score is positive nothing is selected. */
  lemma NothingPositiveNothingSelected(s: seq<real>, k: nat, bound: nat)
    requires forall i :: 0 <= i < |s| ==> s[i] <= 0.0
    ensures SelectRelevant(s, k, bound) == []
  {
    KeepRelevantNone(Top(RankOrder(s), k), s, bound);
  }
}
