/**
 * `find_triangles`: run the cycle search from USDT and then from BUSD, and
 * pass on a record only when its coin SET has not been passed on before.
 * Both searches share one list of the coin sets seen so far, so a cycle
 * found from USDT hides every later record over the same coins, whichever
 * coin it starts from and whichever way round it goes.
 */
module TriangleFilter {
  import opened PriceGraph
  import opened TriangleSearch

  /** `set(triangle["coins"])` */
  function CoinSet(t: Triangle): set<Coin>
  {
    set c | c in t.coins
  }

  function CoinSets(ts: seq<Triangle>): seq<set<Coin>>
  {
    seq(|ts|, i requires 0 <= i < |ts| => CoinSet(ts[i]))
  }

  /** The records the two searches yield, in the order `find_triangles` meets them. */
  function Candidates(g: Graph): seq<Triangle>
  {
    Recurse(g, "USDT", "USDT", DEPTH, 1.0) + Recurse(g, "BUSD", "BUSD", DEPTH, 1.0)
  }

  /**
   * The records of `ts` that `find_triangles` passes on when the coin sets
   * `seen` are already in its list `triangles`.
   */
  function FirstBySet(ts: seq<Triangle>, seen: seq<set<Coin>>): seq<Triangle>
  {
    if ts == [] then []
    else if CoinSet(ts[0]) in seen then FirstBySet(ts[1..], seen)
    else [ts[0]] + FirstBySet(ts[1..], seen + [CoinSet(ts[0])])
  }

  /**
   * `list(find_triangles(prices))`: the records of the USDT search and then
   * of the BUSD search that pass the gate, with one list `triangles` of the
   * coin sets passed so far shared by both loops.
   */
  method FindTriangles(g: Graph) returns (found: seq<Triangle>)
    ensures found == FirstBySet(Candidates(g), [])
  {
    var usdt := Recurse(g, "USDT", "USDT", DEPTH, 1.0);
    var busd := Recurse(g, "BUSD", "BUSD", DEPTH, 1.0);
    var triangles: seq<set<Coin>>;
    found, triangles := PassNew(usdt, [], []);
    found, triangles := PassNew(busd, found, triangles);
    FirstBySetConcat(usdt, busd, []);
  }

  /**
   * One loop of `find_triangles`: yield each record of `stream` whose coin
   * set is not yet in `triangles`, and add that set to `triangles`.
   */
  method PassNew(stream: seq<Triangle>, found0: seq<Triangle>, triangles0: seq<set<Coin>>)
    returns (found: seq<Triangle>, triangles: seq<set<Coin>>)
    ensures found == found0 + FirstBySet(stream, triangles0)
    ensures triangles == triangles0 + CoinSets(FirstBySet(stream, triangles0))
  {
    found, triangles := found0, triangles0;
    for i := 0 to |stream|
      invariant found + FirstBySet(stream[i..], triangles) == found0 + FirstBySet(stream, triangles0)
      invariant |found0| <= |found| && found[..|found0|] == found0
      invariant triangles == triangles0 + CoinSets(found[|found0|..])
    {
      var coins := CoinSet(stream[i]);
      assert stream[i..][1..] == stream[i + 1..];
      if coins !in triangles {
        assert (found + [stream[i]])[|found0|..] == found[|found0|..] + [stream[i]];
        found := found + [stream[i]];
        triangles := triangles + [coins];
      }
    }
    assert stream[|stream|..] == [];
    assert found == found0 + FirstBySet(stream, triangles0);
    assert found[|found0|..] == FirstBySet(stream, triangles0);
  }

  /** Gating `a + b` is gating `a`, then gating `b` with the sets `a` contributed. */
  lemma {:induction false} FirstBySetConcat(a: seq<Triangle>, b: seq<Triangle>, seen: seq<set<Coin>>)
    ensures FirstBySet(a + b, seen) == FirstBySet(a, seen) + FirstBySet(b, seen + CoinSets(FirstBySet(a, seen)))
  {
    if a == [] {
      assert a + b == b;
      assert seen + CoinSets([]) == seen;
    } else {
      assert (a + b)[1..] == a[1..] + b;
      var s := CoinSet(a[0]);
      if s in seen {
        FirstBySetConcat(a[1..], b, seen);
      } else {
        var rest := FirstBySet(a[1..], seen + [s]);
        FirstBySetConcat(a[1..], b, seen + [s]);
        assert CoinSets([a[0]] + rest) == [s] + CoinSets(rest);
        assert seen + [s] + CoinSets(rest) == seen + CoinSets([a[0]] + rest);
      }
    }
  }

  // ---------------------------------------------------------------------------
  // What the gate keeps

  /** `a` is `b` with some elements left out. */
  predicate IsSubsequence(a: seq<Triangle>, b: seq<Triangle>)
    decreases |b|
  {
    a == [] || (b != [] && ((a[0] == b[0] && IsSubsequence(a[1..], b[1..])) || IsSubsequence(a, b[1..])))
  }

  /** The gate only drops records; it never adds or reorders them. */
  lemma {:induction false} FirstBySetSubsequence(ts: seq<Triangle>, seen: seq<set<Coin>>)
    ensures IsSubsequence(FirstBySet(ts, seen), ts)
  {
    if ts != [] {
      if CoinSet(ts[0]) in seen {
        FirstBySetSubsequence(ts[1..], seen);
      } else {
        var rest := FirstBySet(ts[1..], seen + [CoinSet(ts[0])]);
        FirstBySetSubsequence(ts[1..], seen + [CoinSet(ts[0])]);
        assert ([ts[0]] + rest)[1..] == rest;
      }
    }
  }

  /** No two kept records, and no kept record and a set seen before, share a coin set. */
  lemma {:induction false} FirstBySetDistinct(ts: seq<Triangle>, seen: seq<set<Coin>>)
    ensures forall i :: 0 <= i < |FirstBySet(ts, seen)| ==> CoinSet(FirstBySet(ts, seen)[i]) !in seen
    ensures forall i, j :: 0 <= i < j < |FirstBySet(ts, seen)| ==>
              CoinSet(FirstBySet(ts, seen)[i]) != CoinSet(FirstBySet(ts, seen)[j])
  {
    if ts != [] {
      if CoinSet(ts[0]) in seen {
        FirstBySetDistinct(ts[1..], seen);
      } else {
        var seen' := seen + [CoinSet(ts[0])];
        var rest := FirstBySet(ts[1..], seen');
        FirstBySetDistinct(ts[1..], seen');
        var r := [ts[0]] + rest;
        assert FirstBySet(ts, seen) == r;
        forall i | 0 <= i < |r|
          ensures CoinSet(r[i]) !in seen
        {
          if i > 0 {
            assert r[i] == rest[i - 1];
          }
        }
        forall i, j | 0 <= i < j < |r|
          ensures CoinSet(r[i]) != CoinSet(r[j])
        {
          assert r[j] == rest[j - 1];
          if i == 0 {
            assert CoinSet(r[0]) in seen';
          } else {
            assert r[i] == rest[i - 1];
          }
        }
      }
    }
  }

  /** The first record of `ts` whose coin set is `s`, if any. */
  function FirstWithSet(ts: seq<Triangle>, s: set<Coin>): Option<Triangle>
  {
    if ts == [] then None
    else if CoinSet(ts[0]) == s then Some(ts[0])
    else FirstWithSet(ts[1..], s)
  }

  /** A kept record is the first record of `ts` with its coin set. */
  lemma {:induction false} KeptIsFirst(ts: seq<Triangle>, seen: seq<set<Coin>>, t: Triangle)
    requires t in FirstBySet(ts, seen)
    ensures CoinSet(t) !in seen
    ensures FirstWithSet(ts, CoinSet(t)) == Some(t)
  {
    if CoinSet(ts[0]) in seen {
      KeptIsFirst(ts[1..], seen, t);
      assert CoinSet(ts[0]) != CoinSet(t);
    } else if t != ts[0] {
      var seen' := seen + [CoinSet(ts[0])];
      KeptIsFirst(ts[1..], seen', t);
      assert CoinSet(ts[0]) in seen';
    }
  }

  /** The first record of `ts` with a coin set not seen before is kept. */
  lemma {:induction false} FirstIsKept(ts: seq<Triangle>, seen: seq<set<Coin>>, s: set<Coin>)
    requires s !in seen && FirstWithSet(ts, s) != None
    ensures FirstWithSet(ts, s).value in FirstBySet(ts, seen)
  {
    if CoinSet(ts[0]) != s {
      if CoinSet(ts[0]) in seen {
        FirstIsKept(ts[1..], seen, s);
      } else {
        FirstIsKept(ts[1..], seen + [CoinSet(ts[0])], s);
      }
    }
  }

  /** Running the gate again over what it kept changes nothing. */
  lemma {:induction false} FirstBySetIdempotent(ts: seq<Triangle>)
    ensures FirstBySet(FirstBySet(ts, []), []) == FirstBySet(ts, [])
  {
    FirstBySetDistinct(ts, []);
    KeepDistinct(FirstBySet(ts, []), []);
  }

  /** Records whose coin sets are all new and pairwise different all pass the gate. */
  lemma {:induction false} KeepDistinct(ts: seq<Triangle>, seen: seq<set<Coin>>)
    requires forall i :: 0 <= i < |ts| ==> CoinSet(ts[i]) !in seen
    requires forall i, j :: 0 <= i < j < |ts| ==> CoinSet(ts[i]) != CoinSet(ts[j])
    ensures FirstBySet(ts, seen) == ts
  {
    if ts != [] {
      var seen' := seen + [CoinSet(ts[0])];
      forall i | 0 <= i < |ts[1..]|
        ensures CoinSet(ts[1..][i]) !in seen'
      {
        assert ts[1..][i] == ts[i + 1];
      }
      KeepDistinct(ts[1..], seen');
    }
  }

  /**
   * Everything `find_triangles` passes on is a record of one of its two
   * searches: a cycle of DEPTH edges from USDT or from BUSD back to itself,
   * listed backwards, with a profit above 1.0.
   */
  lemma FoundAreCycles(g: Graph, t: Triangle)
    requires WellFormed(g)
    requires t in FirstBySet(Candidates(g), [])
    ensures |t.coins| == DEPTH + 1 && t.coins[DEPTH] == t.coins[0]
    ensures t.coins[0] in {"USDT", "BUSD"}
    ensures forall i :: 0 <= i < DEPTH ==> HasEdge(g, t.coins[i + 1], t.coins[i])
    ensures t.profit > 1.0
  {
    var usdt := Recurse(g, "USDT", "USDT", DEPTH, 1.0);
    var busd := Recurse(g, "BUSD", "BUSD", DEPTH, 1.0);
    assert t in usdt + busd by {
      KeptIsFirst(Candidates(g), [], t);
      FirstWithSetMember(Candidates(g), CoinSet(t));
    }
    if t in usdt {
      TriangleRecord(g, "USDT", "USDT", DEPTH, 1.0, t);
    } else {
      TriangleRecord(g, "BUSD", "BUSD", DEPTH, 1.0, t);
    }
  }

  lemma {:induction false} FirstWithSetMember(ts: seq<Triangle>, s: set<Coin>)
    requires FirstWithSet(ts, s) != None
    ensures FirstWithSet(ts, s).value in ts && CoinSet(FirstWithSet(ts, s).value) == s
  {
    if CoinSet(ts[0]) != s {
      FirstWithSetMember(ts[1..], s);
    }
  }
}
