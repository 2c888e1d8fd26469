/**
 * The ranking of one polling iteration: `sorted(triangles,
 * key=itemgetter("profit"), reverse=True)`, a stable sort by profit, highest
 * first; and the iteration itself: build the price graph, find the
 * triangles, rank them.
 */
module Ranking {
  import opened PriceGraph
  import opened TriangleSearch
  import opened TriangleFilter

  /** Profits never go up along `ts`. */
  predicate NonIncreasing(ts: seq<Triangle>)
  {
    forall i, j :: 0 <= i < j < |ts| ==> ts[i].profit >= ts[j].profit
  }

  /** Place `t` just before the first record of `s` whose profit does not exceed its own. */
  function Insert(t: Triangle, s: seq<Triangle>): seq<Triangle>
  {
    if s == [] || s[0].profit <= t.profit then [t] + s
    else [s[0]] + Insert(t, s[1..])
  }

  /** The records of `ts` by profit, highest first; equal profits keep their order in `ts`. */
  function RankByProfit(ts: seq<Triangle>): seq<Triangle>
  {
    if ts == [] then [] else Insert(ts[0], RankByProfit(ts[1..]))
  }

  /** The records of `ts` whose profit is `p`, in their order in `ts`. */
  function WithProfit(ts: seq<Triangle>, p: real): seq<Triangle>
  {
    if ts == [] then []
    else (if ts[0].profit == p then [ts[0]] else []) + WithProfit(ts[1..], p)
  }

  // ---------------------------------------------------------------------------
  // Insert

  lemma {:induction false} InsertPermutation(t: Triangle, s: seq<Triangle>)
    ensures multiset(Insert(t, s)) == multiset(s) + multiset{t}
  {
    if s != [] && s[0].profit > t.profit {
      InsertPermutation(t, s[1..]);
      assert s == [s[0]] + s[1..];
    }
  }

  /** A ranked list with a non-empty head: its tail is ranked and no profit in it exceeds the head's. */
  lemma NonIncreasingTail(s: seq<Triangle>)
    requires s != [] && NonIncreasing(s)
    ensures NonIncreasing(s[1..])
    ensures forall y :: y in s[1..] ==> y.profit <= s[0].profit
  {
    forall i, j | 0 <= i < j < |s[1..]|
      ensures s[1..][i].profit >= s[1..][j].profit
    {
      assert s[1..][i] == s[i + 1] && s[1..][j] == s[j + 1];
    }
  }

  /** A record whose profit is not below any in a ranked list can go in front. */
  lemma NonIncreasingCons(x: Triangle, s: seq<Triangle>)
    requires NonIncreasing(s)
    requires forall y :: y in s ==> y.profit <= x.profit
    ensures NonIncreasing([x] + s)
  {
    var r := [x] + s;
    forall i, j | 0 <= i < j < |r|
      ensures r[i].profit >= r[j].profit
    {
      assert r[j] == s[j - 1];
      if i > 0 {
        assert r[i] == s[i - 1];
      }
    }
  }

  lemma InsertMembers(t: Triangle, s: seq<Triangle>)
    ensures forall x :: x in Insert(t, s) ==> x == t || x in s
  {
    InsertPermutation(t, s);
    forall x | x in Insert(t, s)
      ensures x == t || x in s
    {
      assert x in multiset(Insert(t, s));
    }
  }

  lemma {:induction false} InsertSorted(t: Triangle, s: seq<Triangle>)
    requires NonIncreasing(s)
    ensures NonIncreasing(Insert(t, s))
  {
    if s == [] {
      NonIncreasingCons(t, s);
    } else if s[0].profit <= t.profit {
      NonIncreasingTail(s);
      assert forall y :: y in s ==> y == s[0] || y in s[1..];
      NonIncreasingCons(t, s);
    } else {
      NonIncreasingTail(s);
      var rest := Insert(t, s[1..]);
      InsertSorted(t, s[1..]);
      InsertMembers(t, s[1..]);
      NonIncreasingCons(s[0], rest);
    }
  }

  /**
   * Among the records of any one profit, `Insert` puts `t` in front of
   * those already in the ranked list and keeps their order.
   */
  lemma {:induction false} InsertStable(t: Triangle, s: seq<Triangle>, p: real)
    requires NonIncreasing(s)
    ensures WithProfit(Insert(t, s), p) == (if t.profit == p then [t] else []) + WithProfit(s, p)
  {
    if s == [] || s[0].profit <= t.profit {
      WithProfitCons(t, s, p);
    } else {
      var rest := Insert(t, s[1..]);
      assert Insert(t, s) == [s[0]] + rest;
      NonIncreasingTail(s);
      InsertStable(t, s[1..], p);
      WithProfitCons(s[0], rest, p);
      WithProfitCons(s[0], s[1..], p);
      assert [s[0]] + s[1..] == s;
      if t.profit == p {
        assert s[0].profit != p;
      }
    }
  }

  lemma WithProfitCons(x: Triangle, s: seq<Triangle>, p: real)
    ensures WithProfit([x] + s, p) == (if x.profit == p then [x] else []) + WithProfit(s, p)
  {
    assert ([x] + s)[0] == x && ([x] + s)[1..] == s;
  }

  // ---------------------------------------------------------------------------
  // The ranking

  /** The ranking holds exactly the records it was given. */
  lemma {:induction false} RankPermutation(ts: seq<Triangle>)
    ensures multiset(RankByProfit(ts)) == multiset(ts)
  {
    if ts != [] {
      RankPermutation(ts[1..]);
      InsertPermutation(ts[0], RankByProfit(ts[1..]));
      assert ts == [ts[0]] + ts[1..];
    }
  }

  /** The ranking lists profits from highest to lowest. */
  lemma {:induction false} RankSorted(ts: seq<Triangle>)
    ensures NonIncreasing(RankByProfit(ts))
  {
    if ts != [] {
      RankSorted(ts[1..]);
      InsertSorted(ts[0], RankByProfit(ts[1..]));
    }
  }

  /** Records of equal profit keep the order in which they were found. */
  lemma {:induction false} RankStable(ts: seq<Triangle>, p: real)
    ensures WithProfit(RankByProfit(ts), p) == WithProfit(ts, p)
  {
    if ts != [] {
      RankStable(ts[1..], p);
      RankSorted(ts[1..]);
      InsertStable(ts[0], RankByProfit(ts[1..]), p);
    }
  }

  lemma {:induction false} WithProfitMembers(s: seq<Triangle>, p: real, x: Triangle)
    ensures x in WithProfit(s, p) <==> x in s && x.profit == p
  {
    if s != [] {
      WithProfitMembers(s[1..], p, x);
      WithProfitCons(s[0], s[1..], p);
      assert [s[0]] + s[1..] == s;
    }
  }

  /**
   * Two lists ranked by profit that hold, profit by profit, the same records
   * in the same order are the same list.
   */
  lemma {:induction false} RankedUnique(a: seq<Triangle>, b: seq<Triangle>)
    requires NonIncreasing(a) && NonIncreasing(b)
    requires forall p :: WithProfit(a, p) == WithProfit(b, p)
    ensures a == b
    decreases |a|
  {
    if a == [] {
      if b != [] {
        WithProfitMembers(b, b[0].profit, b[0]);
      }
    } else if b == [] {
      WithProfitMembers(a, a[0].profit, a[0]);
    } else {
      var x, y := a[0], b[0];
      WithProfitMembers(a, y.profit, y);
      WithProfitMembers(b, y.profit, y);
      WithProfitMembers(a, x.profit, x);
      WithProfitMembers(b, x.profit, x);
      assert y in a && x in b;
      NonIncreasingTail(a);
      NonIncreasingTail(b);
      assert x.profit == y.profit by {
        assert y == x || y in a[1..];
        assert x == y || x in b[1..];
      }
      assert x == y by {
        WithProfitCons(x, a[1..], x.profit);
        WithProfitCons(y, b[1..], x.profit);
        assert [x] + a[1..] == a && [y] + b[1..] == b;
        assert WithProfit(a, x.profit)[0] == x && WithProfit(b, x.profit)[0] == y;
      }
      forall p
        ensures WithProfit(a[1..], p) == WithProfit(b[1..], p)
      {
        WithProfitCons(x, a[1..], p);
        WithProfitCons(x, b[1..], p);
        assert [x] + a[1..] == a && [x] + b[1..] == b;
        var h := if x.profit == p then [x] else [];
        assert h + WithProfit(a[1..], p) == h + WithProfit(b[1..], p);
        assert (h + WithProfit(a[1..], p))[|h|..] == WithProfit(a[1..], p);
        assert (h + WithProfit(b[1..], p))[|h|..] == WithProfit(b[1..], p);
      }
      RankedUnique(a[1..], b[1..]);
    }
  }

  /**
   * `RankByProfit` is the only ordering of `ts` by non-increasing profit in
   * which equal profits keep their order in `ts`: every stable sort by
   * profit, highest first, returns it.
   */
  lemma StableSortIsRank(ts: seq<Triangle>, r: seq<Triangle>)
    requires NonIncreasing(r)
    requires forall p :: WithProfit(r, p) == WithProfit(ts, p)
    ensures r == RankByProfit(ts)
  {
    RankSorted(ts);
    forall p
      ensures WithProfit(r, p) == WithProfit(RankByProfit(ts), p)
    {
      RankStable(ts, p);
    }
    RankedUnique(r, RankByProfit(ts));
  }

  // ---------------------------------------------------------------------------
  // One iteration of the polling loop

  /**
   * One pass of the loop in `main`, without its output: build the price
   * graph from already-parsed quotes, find the triangles, rank them.
   */
  method RunIteration(quotes: seq<Quote>) returns (prices: Graph, ranked: seq<Triangle>)
    ensures prices == Build(quotes)
    ensures multiset(ranked) == multiset(FirstBySet(Candidates(prices), []))
    ensures NonIncreasing(ranked)
    ensures forall p :: WithProfit(ranked, p) == WithProfit(FirstBySet(Candidates(prices), []), p)
    ensures forall t :: t in ranked ==>
              |t.coins| == DEPTH + 1 && t.coins[DEPTH] == t.coins[0] &&
              t.coins[0] in {"USDT", "BUSD"} && t.profit > 1.0
  {
    prices := BuildGraph(quotes);
    var triangles := FindTriangles(prices);
    ranked := RankByProfit(triangles);
    RankPermutation(triangles);
    RankSorted(triangles);
    forall p
      ensures WithProfit(ranked, p) == WithProfit(triangles, p)
    {
      RankStable(triangles, p);
    }
    BuildWellFormed(quotes);
    forall t | t in ranked
      ensures |t.coins| == DEPTH + 1 && t.coins[DEPTH] == t.coins[0]
      ensures t.coins[0] in {"USDT", "BUSD"} && t.profit > 1.0
    {
      assert t in multiset(ranked);
      FoundAreCycles(prices, t);
    }
  }
}
