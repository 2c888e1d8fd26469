/**
 * The cycle enumerator `recurse_triangle`: a depth-bounded walk over the
 * price graph that compounds the amount along each edge and reports the
 * walks that come back to the starting coin with more than they started.
 *
 * The coins of a record are collected by APPENDING while the recursion
 * unwinds, so a record lists its walk backwards: the walk
 * USDT -> BTC -> ETH -> USDT is recorded as [USDT, ETH, BTC, USDT].
 */
module TriangleSearch {
  import opened PriceGraph

  /** The trading fee taken on every hop. */
  const FEE: real := 0.00075

  /** The depth `recurse_triangle` runs with by default. */
  const DEPTH: nat := 3

  /** A reported opportunity: the coins (walk reversed) and the final amount. */
  datatype Triangle = Triangle(coins: seq<Coin>, profit: real)

  /** One hop: `(amount * price) * (1.0 - FEE)`. */
  function Step(amount: real, rate: real): real
  {
    (amount * rate) * (1.0 - FEE)
  }

  /** `triangle["coins"] + [current_coin]` on every record of a stream. */
  function AppendCoin(ts: seq<Triangle>, c: Coin): seq<Triangle>
  {
    seq(|ts|, i requires 0 <= i < |ts| => Triangle(ts[i].coins + [c], ts[i].profit))
  }

  /**
   * `recurse_triangle(prices, current, start, depthLeft, amount)`: the
   * records it yields, in order. A missing coin has no edges, as with the
   * source's `defaultdict`.
   */
  function Recurse(g: Graph, current: Coin, start: Coin, depthLeft: nat, amount: real): seq<Triangle>
    decreases depthLeft, 1, 0
  {
    if depthLeft > 0 then RecurseEdges(g, Out(g, current), current, start, depthLeft, amount)
    else if current == start && amount > 1.0 then [Triangle([current], amount)]
    else []
  }

  /** The loop over `pairs.items()` in `recurse_triangle`, from edge `es[0]` on. */
  function RecurseEdges(g: Graph, es: Edges, current: Coin, start: Coin, depthLeft: nat, amount: real)
    : seq<Triangle>
    requires depthLeft > 0
    decreases depthLeft, 0, |es|
  {
    if es == [] then []
    else
      AppendCoin(Recurse(g, es[0].0, start, depthLeft - 1, Step(amount, es[0].1)), current)
      + RecurseEdges(g, es[1..], current, start, depthLeft, amount)
  }

  // ---------------------------------------------------------------------------
  // Reference: walks, their compounded amount, and the records they give

  predicate IsSuffix(s: Edges, t: Edges)
  {
    |s| <= |t| && t[|t| - |s|..] == s
  }

  /** Each coin of `w` has an edge to the next. */
  predicate IsWalk(g: Graph, w: seq<Coin>)
  {
    forall i :: 0 <= i < |w| - 1 ==> HasEdge(g, w[i], w[i + 1])
  }

  function Prepend(c: Coin, ws: seq<seq<Coin>>): seq<seq<Coin>>
  {
    seq(|ws|, i requires 0 <= i < |ws| => [c] + ws[i])
  }

  /** Every walk of `len` edges from `from`, in nested edge-insertion order. */
  function Walks(g: Graph, from: Coin, len: nat): seq<seq<Coin>>
    decreases len, 1, 0
  {
    if len == 0 then [[from]] else WalksVia(g, Out(g, from), from, len)
  }

  /** The walks of `len` edges from `from` whose first edge is one of `es`. */
  function WalksVia(g: Graph, es: Edges, from: Coin, len: nat): seq<seq<Coin>>
    requires len > 0
    decreases len, 0, |es|
  {
    if es == [] then []
    else Prepend(from, Walks(g, es[0].0, len - 1)) + WalksVia(g, es[1..], from, len)
  }

  /** The amount after following walk `w` from `amount`, one `Step` per edge. */
  function Compound(g: Graph, amount: real, w: seq<Coin>): real
    requires |w| >= 1
    decreases |w|
  {
    if |w| == 1 then amount else Compound(g, Step(amount, Rate(g, w[0], w[1])), w[1..])
  }

  function Reverse(s: seq<Coin>): seq<Coin>
  {
    seq(|s|, i requires 0 <= i < |s| => s[|s| - 1 - i])
  }

  /** The record of walk `w`, if it ends at `start` and compounds to more than 1.0. */
  function Record(g: Graph, start: Coin, amount: real, w: seq<Coin>): seq<Triangle>
  {
    if |w| >= 1 && w[|w| - 1] == start && Compound(g, amount, w) > 1.0
    then [Triangle(Reverse(w), Compound(g, amount, w))] else []
  }

  /** The records of the walks in `ws`, in the order of `ws`. */
  function Select(g: Graph, start: Coin, amount: real, ws: seq<seq<Coin>>): seq<Triangle>
  {
    if ws == [] then [] else Record(g, start, amount, ws[0]) + Select(g, start, amount, ws[1..])
  }

  // ---------------------------------------------------------------------------
  // The walks are what they claim to be, and all of them are there

  lemma {:induction false} WalksShape(g: Graph, from: Coin, len: nat, w: seq<Coin>)
    requires w in Walks(g, from, len)
    ensures |w| == len + 1 && w[0] == from && IsWalk(g, w)
    decreases len, 1, 0
  {
    if len > 0 {
      WalksViaShape(g, Out(g, from), from, len, w);
      assert HasEdge(g, w[0], w[1]);
      forall i | 1 <= i < |w| - 1
        ensures HasEdge(g, w[i], w[i + 1])
      {
        assert w[1..][i - 1] == w[i] && w[1..][i] == w[i + 1];
      }
    }
  }

  lemma {:induction false} WalksViaShape(g: Graph, es: Edges, from: Coin, len: nat, w: seq<Coin>)
    requires len > 0 && w in WalksVia(g, es, from, len)
    ensures |w| == len + 1 && w[0] == from && w[1] in Keys(es) && IsWalk(g, w[1..])
    decreases len, 0, |es|
  {
    var head := Prepend(from, Walks(g, es[0].0, len - 1));
    if w in head {
      var k :| 0 <= k < |head| && head[k] == w;
      var v := Walks(g, es[0].0, len - 1)[k];
      WalksShape(g, es[0].0, len - 1, v);
      assert w == [from] + v && w[1..] == v;
      assert Keys(es)[0] == es[0].0;
    } else {
      WalksViaShape(g, es[1..], from, len, w);
      assert Keys(es[1..]) == Keys(es)[1..];
    }
  }

  lemma {:induction false} WalksViaContains(g: Graph, es: Edges, from: Coin, len: nat, w: seq<Coin>)
    requires len > 0 && |w| == len + 1 && w[0] == from
    requires w[1] in Keys(es) && w[1..] in Walks(g, w[1], len - 1)
    ensures w in WalksVia(g, es, from, len)
    decreases |es|
  {
    if es[0].0 == w[1] {
      var deeper := Walks(g, w[1], len - 1);
      var k :| 0 <= k < |deeper| && deeper[k] == w[1..];
      assert Prepend(from, deeper)[k] == w;
    } else {
      assert Keys(es[1..]) == Keys(es)[1..];
      WalksViaContains(g, es[1..], from, len, w);
    }
  }

  /** Every walk of `len` edges from `from` is enumerated. */
  lemma {:induction false} WalksComplete(g: Graph, from: Coin, len: nat, w: seq<Coin>)
    requires |w| == len + 1 && w[0] == from && IsWalk(g, w)
    ensures w in Walks(g, from, len)
    decreases len
  {
    if len == 0 {
      assert w == [from];
    } else {
      assert HasEdge(g, w[0], w[1]);
      assert IsWalk(g, w[1..]) by {
        forall i | 0 <= i < |w| - 2
          ensures HasEdge(g, w[1..][i], w[1..][i + 1])
        {
          assert HasEdge(g, w[i + 1], w[i + 2]);
        }
      }
      WalksComplete(g, w[1], len - 1, w[1..]);
      WalksViaContains(g, Out(g, from), from, len, w);
    }
  }

  // ---------------------------------------------------------------------------
  // Recurse enumerates exactly the profitable closed walks, in walk order

  lemma {:induction false} SelectConcat(g: Graph, start: Coin, amount: real, a: seq<seq<Coin>>, b: seq<seq<Coin>>)
    ensures Select(g, start, amount, a + b) == Select(g, start, amount, a) + Select(g, start, amount, b)
  {
    if a != [] {
      assert (a + b)[1..] == a[1..] + b;
      SelectConcat(g, start, amount, a[1..], b);
    } else {
      assert a + b == b;
    }
  }

  lemma AppendCoinConcat(a: seq<Triangle>, b: seq<Triangle>, c: Coin)
    ensures AppendCoin(a + b, c) == AppendCoin(a, c) + AppendCoin(b, c)
  {
  }

  /** One more edge in front of a walk is one more coin at the end of its record. */
  lemma RecordPrepend(g: Graph, start: Coin, amount: real, c: Coin, w: seq<Coin>)
    requires |w| >= 1
    ensures AppendCoin(Record(g, start, Step(amount, Rate(g, c, w[0])), w), c)
            == Record(g, start, amount, [c] + w)
  {
    var v := [c] + w;
    assert v[1..] == w;
    assert Compound(g, amount, v) == Compound(g, Step(amount, Rate(g, c, w[0])), w);
    assert Reverse(v) == Reverse(w) + [c];
  }

  /** Prepending the current coin to every walk is appending it to every record. */
  lemma {:induction false} SelectPrepend(g: Graph, start: Coin, amount: real, c: Coin, n: Coin, ws: seq<seq<Coin>>)
    requires forall w :: w in ws ==> |w| >= 1 && w[0] == n
    ensures AppendCoin(Select(g, start, Step(amount, Rate(g, c, n)), ws), c)
            == Select(g, start, amount, Prepend(c, ws))
  {
    var a' := Step(amount, Rate(g, c, n));
    if ws != [] {
      assert ws[0] in ws;
      assert Prepend(c, ws)[1..] == Prepend(c, ws[1..]);
      assert Prepend(c, ws)[0] == [c] + ws[0];
      SelectPrepend(g, start, amount, c, n, ws[1..]);
      RecordPrepend(g, start, amount, c, ws[0]);
      AppendCoinConcat(Record(g, start, a', ws[0]), Select(g, start, a', ws[1..]), c);
    }
  }

  /**
   * `recurse_triangle` yields, in order, the record of every walk of
   * `depthLeft` edges from `current` that ends at `start` with a compounded
   * amount above 1.0.
   */
  lemma {:induction false} RecurseEnumeratesWalks(g: Graph, current: Coin, start: Coin, depthLeft: nat, amount: real)
    requires WellFormed(g)
    ensures Recurse(g, current, start, depthLeft, amount) == Select(g, start, amount, Walks(g, current, depthLeft))
    decreases depthLeft, 1, 0
  {
    if depthLeft == 0 {
      assert Reverse([current]) == [current];
      assert [[current]][1..] == [];
    } else {
      var es := Out(g, current);
      assert es[|es| - |es|..] == es;
      RecurseEdgesEnumeratesWalks(g, es, current, start, depthLeft, amount);
    }
  }

  lemma {:induction false} RecurseEdgesEnumeratesWalks(g: Graph, es: Edges, current: Coin, start: Coin, depthLeft: nat, amount: real)
    requires WellFormed(g) && depthLeft > 0
    requires IsSuffix(es, Out(g, current))
    ensures RecurseEdges(g, es, current, start, depthLeft, amount)
            == Select(g, start, amount, WalksVia(g, es, current, depthLeft))
    decreases depthLeft, 0, |es|
  {
    if es != [] {
      var n, a' := es[0].0, Step(amount, es[0].1);
      var rest := es[1..];
      assert Rate(g, current, n) == es[0].1 && IsSuffix(rest, Out(g, current)) by {
        SuffixHead(g, es, current);
      }
      assert Recurse(g, n, start, depthLeft - 1, a') == Select(g, start, a', Walks(g, n, depthLeft - 1)) by {
        RecurseEnumeratesWalks(g, n, start, depthLeft - 1, a');
      }
      assert RecurseEdges(g, rest, current, start, depthLeft, amount)
             == Select(g, start, amount, WalksVia(g, rest, current, depthLeft)) by {
        RecurseEdgesEnumeratesWalks(g, rest, current, start, depthLeft, amount);
      }
      CombineEdge(g, es, current, start, depthLeft, amount);
    }
  }

  /** The first remaining edge carries the graph's rate, and the rest is still a suffix. */
  lemma SuffixHead(g: Graph, es: Edges, current: Coin)
    requires WellFormed(g) && es != [] && IsSuffix(es, Out(g, current))
    ensures Rate(g, current, es[0].0) == es[0].1
    ensures IsSuffix(es[1..], Out(g, current))
  {
    var all := Out(g, current);
    var i := |all| - |es|;
    assert all[i] == es[0];
    if current in g {
      LookupStored(all, i);
    }
    assert all[i + 1..] == all[i..][1..];
  }

  /** One step of the loop over the edges, given both recursive results. */
  lemma CombineEdge(g: Graph, es: Edges, current: Coin, start: Coin, depthLeft: nat, amount: real)
    requires depthLeft > 0 && es != []
    requires Rate(g, current, es[0].0) == es[0].1
    requires Recurse(g, es[0].0, start, depthLeft - 1, Step(amount, es[0].1))
             == Select(g, start, Step(amount, es[0].1), Walks(g, es[0].0, depthLeft - 1))
    requires RecurseEdges(g, es[1..], current, start, depthLeft, amount)
             == Select(g, start, amount, WalksVia(g, es[1..], current, depthLeft))
    ensures RecurseEdges(g, es, current, start, depthLeft, amount)
            == Select(g, start, amount, WalksVia(g, es, current, depthLeft))
  {
    var n := es[0].0;
    var deeper := Walks(g, n, depthLeft - 1);
    var rest := WalksVia(g, es[1..], current, depthLeft);
    forall w | w in deeper
      ensures |w| >= 1 && w[0] == n
    {
      WalksShape(g, n, depthLeft - 1, w);
    }
    SelectPrepend(g, start, amount, current, n, deeper);
    SelectConcat(g, start, amount, Prepend(current, deeper), rest);
  }

  // ---------------------------------------------------------------------------
  // What each record says

  /** The gain of walk `w`: the product, over its edges, of `rate * (1.0 - FEE)`. */
  function Gain(g: Graph, w: seq<Coin>): real
    decreases |w|
  {
    if |w| <= 1 then 1.0 else (Rate(g, w[0], w[1]) * (1.0 - FEE)) * Gain(g, w[1..])
  }

  /** Compounding along a walk multiplies the amount by the walk's gain. */
  lemma {:induction false} CompoundIsProduct(g: Graph, amount: real, w: seq<Coin>)
    requires |w| >= 1
    ensures Compound(g, amount, w) == amount * Gain(g, w)
    decreases |w|
  {
    if |w| > 1 {
      var r := Rate(g, w[0], w[1]);
      var rest := Gain(g, w[1..]);
      CompoundIsProduct(g, Step(amount, r), w[1..]);
      assert Step(amount, r) * rest == amount * ((r * (1.0 - FEE)) * rest);
    }
  }

  /** A record of `Select` comes from a walk of `ws` that qualifies. */
  lemma {:induction false} SelectMember(g: Graph, start: Coin, amount: real, ws: seq<seq<Coin>>, t: Triangle)
    returns (w: seq<Coin>)
    requires t in Select(g, start, amount, ws)
    ensures w in ws && |w| >= 1 && w[|w| - 1] == start && Compound(g, amount, w) > 1.0
    ensures t == Triangle(Reverse(w), Compound(g, amount, w))
    decreases |ws|
  {
    if t in Record(g, start, amount, ws[0]) {
      w := ws[0];
    } else {
      w := SelectMember(g, start, amount, ws[1..], t);
    }
  }

  /** A walk of `ws` that qualifies has its record in `Select`. */
  lemma {:induction false} SelectContains(g: Graph, start: Coin, amount: real, ws: seq<seq<Coin>>, w: seq<Coin>)
    requires w in ws && |w| >= 1 && w[|w| - 1] == start && Compound(g, amount, w) > 1.0
    ensures Triangle(Reverse(w), Compound(g, amount, w)) in Select(g, start, amount, ws)
    decreases |ws|
  {
    if ws[0] != w {
      SelectContains(g, start, amount, ws[1..], w);
    }
  }

  lemma ReverseReverse(s: seq<Coin>)
    ensures Reverse(Reverse(s)) == s
  {
    assert forall i :: 0 <= i < |s| ==> Reverse(Reverse(s))[i] == s[i];
  }

  /** Read backwards, a walk has an edge from each coin to the one before it. */
  lemma ReversedWalk(g: Graph, w: seq<Coin>)
    requires IsWalk(g, w)
    ensures forall i :: 0 <= i < |w| - 1 ==> HasEdge(g, Reverse(w)[i + 1], Reverse(w)[i])
  {
    var d := |w| - 1;
    forall i | 0 <= i < d
      ensures HasEdge(g, Reverse(w)[i + 1], Reverse(w)[i])
    {
      assert HasEdge(g, w[d - 1 - i], w[d - i]);
    }
  }

  /** The record of a qualifying walk, read backwards, is that walk's cycle. */
  lemma RecordOfWalk(g: Graph, amount: real, w: seq<Coin>, t: Triangle)
    requires |w| >= 1 && IsWalk(g, w)
    requires t == Triangle(Reverse(w), Compound(g, amount, w))
    ensures |t.coins| == |w| && Reverse(t.coins) == w
    ensures forall i :: 0 <= i < |w| - 1 ==> HasEdge(g, t.coins[i + 1], t.coins[i])
    ensures t.profit == Compound(g, amount, Reverse(t.coins))
  {
    ReverseReverse(w);
    ReversedWalk(g, w);
  }

  /**
   * Every record of `recurse_triangle(g, current, start, depthLeft, amount)`
   * lists `depthLeft + 1` coins from `start` back to `current`, each reached
   * from the next by an edge of the graph; its profit is above 1.0 and is
   * the amount compounded along the forward walk, which `CompoundIsProduct`
   * shows to be the amount times the walk's `Gain`.
   */
  lemma TriangleRecord(g: Graph, current: Coin, start: Coin, depthLeft: nat, amount: real, t: Triangle)
    requires WellFormed(g)
    requires t in Recurse(g, current, start, depthLeft, amount)
    ensures |t.coins| == depthLeft + 1 && t.coins[0] == start && t.coins[depthLeft] == current
    ensures forall i :: 0 <= i < depthLeft ==> HasEdge(g, t.coins[i + 1], t.coins[i])
    ensures t.profit > 1.0
    ensures t.profit == Compound(g, amount, Reverse(t.coins))
  {
    var walks := Walks(g, current, depthLeft);
    assert t in Select(g, start, amount, walks) by {
      RecurseEnumeratesWalks(g, current, start, depthLeft, amount);
    }
    var w := SelectMember(g, start, amount, walks, t);
    assert |w| == depthLeft + 1 && w[0] == current && IsWalk(g, w) by {
      WalksShape(g, current, depthLeft, w);
    }
    RecordOfWalk(g, amount, w, t);
  }

  /**
   * Every walk of `depthLeft` edges from `current` to `start` whose
   * compounded amount exceeds 1.0 is reported, backwards, with that amount.
   */
  lemma RecurseComplete(g: Graph, current: Coin, start: Coin, depthLeft: nat, amount: real, w: seq<Coin>)
    requires WellFormed(g)
    requires |w| == depthLeft + 1 && w[0] == current && w[depthLeft] == start && IsWalk(g, w)
    requires Compound(g, amount, w) > 1.0
    ensures Triangle(Reverse(w), Compound(g, amount, w)) in Recurse(g, current, start, depthLeft, amount)
  {
    RecurseEnumeratesWalks(g, current, start, depthLeft, amount);
    WalksComplete(g, current, depthLeft, w);
    SelectContains(g, start, amount, Walks(g, current, depthLeft), w);
  }

  /**
   * A start coin that yields a record has an edge out of it and an edge
   * into it: a coin missing either yields nothing.
   */
  lemma ReportedStartHasEdges(g: Graph, start: Coin, depthLeft: nat, amount: real)
    requires WellFormed(g) && depthLeft > 0
    requires Recurse(g, start, start, depthLeft, amount) != []
    ensures Out(g, start) != [] && exists x :: HasEdge(g, x, start)
  {
    var t := Recurse(g, start, start, depthLeft, amount)[0];
    TriangleRecord(g, start, start, depthLeft, amount, t);
    assert HasEdge(g, t.coins[1], t.coins[0]);
  }

  /** Scaling an amount of at most 1.0 by a factor in [0, 1] keeps it at most 1.0. */
  lemma ScaleDown(x: real, f: real)
    requires x <= 1.0 && 0.0 <= f <= 1.0
    ensures x * f <= 1.0
  {
    if x > 0.0 {
      assert x * (1.0 - f) >= 0.0 by {
        assert x >= 0.0 && 1.0 - f >= 0.0;
      }
      assert x * f <= x;
    } else {
      assert (-x) * f >= 0.0;
    }
  }

  /** With every rate between 0 and 1, the fee makes every walk a loss. */
  lemma {:induction false} CompoundNeverGains(g: Graph, amount: real, w: seq<Coin>)
    requires |w| >= 1 && amount <= 1.0
    requires forall x, y :: 0.0 <= Rate(g, x, y) <= 1.0
    ensures Compound(g, amount, w) <= 1.0
    decreases |w|
  {
    if |w| > 1 {
      var r := Rate(g, w[0], w[1]);
      ScaleDown(amount, r);
      ScaleDown(amount * r, 1.0 - FEE);
      CompoundNeverGains(g, Step(amount, r), w[1..]);
    }
  }

  /** Without an edge worth more than 1.0, nothing is ever reported. */
  lemma NoGainNoRecord(g: Graph, current: Coin, start: Coin, depthLeft: nat, amount: real)
    requires WellFormed(g) && amount <= 1.0
    requires forall x, y :: 0.0 <= Rate(g, x, y) <= 1.0
    ensures Recurse(g, current, start, depthLeft, amount) == []
  {
    var walks := Walks(g, current, depthLeft);
    var ts := Select(g, start, amount, walks);
    assert Recurse(g, current, start, depthLeft, amount) == ts by {
      RecurseEnumeratesWalks(g, current, start, depthLeft, amount);
    }
    if ts != [] {
      var w := SelectMember(g, start, amount, walks, ts[0]);
      CompoundNeverGains(g, amount, w);
      assert false;
    }
  }
}
