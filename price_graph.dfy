/**
 * The price graph and its builder: the body of `get_prices` after the
 * exchange call. Quotes arrive already parsed; the builder turns them into a
 * dict of dicts `coin -> {counter coin -> rate}`.
 *
 * A Python dict keeps its keys in insertion order and an assignment to an
 * existing key keeps that key where it is. The inner dicts are therefore
 * association lists (`Edges`) updated by `Put`, so that the order in which
 * the search enumerates edges is part of the model.
 */
module PriceGraph {

  datatype Option<T> = None | Some(value: T)

  type Coin = string

  /** One order-book ticker: pair symbol, best ask price, best bid price. */
  datatype Quote = Quote(symbol: string, ask: real, bid: real)

  /** The outgoing edges of one coin, in dict insertion order. */
  type Edges = seq<(Coin, real)>

  /** The graph; a coin that is not a key has no outgoing edges. */
  type Graph = map<Coin, Edges>

  /** One executed assignment `prepared[src][dst] = rate`. */
  datatype Write = Write(src: Coin, dst: Coin, rate: real)

  /** The anchor currencies, in the order the builder tries them. */
  const PRIMARY: seq<Coin> :=
    ["ETH", "USDT", "BTC", "BUSD", "BNB", "ADA", "SOL", "LINK", "LTC", "UNI", "XTZ"]

  // ---------------------------------------------------------------------------
  // Association lists (the inner dicts)

  function Keys(es: Edges): seq<Coin>
  {
    seq(|es|, i requires 0 <= i < |es| => es[i].0)
  }

  /** A dict never holds a key twice. */
  predicate NoDupKeys(es: Edges)
  {
    forall i, j :: 0 <= i < j < |es| ==> es[i].0 != es[j].0
  }

  function Lookup(es: Edges, k: Coin): Option<real>
  {
    if es == [] then None
    else if es[0].0 == k then Some(es[0].1)
    else Lookup(es[1..], k)
  }

  /**
   * `d[k] = v`: the value of an existing key is replaced where it stands,
   * a new key goes to the end.
   */
  function Put(es: Edges, k: Coin, v: real): (r: Edges)
    ensures Lookup(r, k) == Some(v)
    ensures forall k' :: k' != k ==> Lookup(r, k') == Lookup(es, k')
    ensures k in Keys(es) ==> Keys(r) == Keys(es)
    ensures k !in Keys(es) ==> Keys(r) == Keys(es) + [k]
    ensures NoDupKeys(es) ==> NoDupKeys(r)
  {
    if es == [] then [(k, v)]
    else
      KeysCons(es);
      if es[0].0 == k then
        var r := [(k, v)] + es[1..];
        assert r[1..] == es[1..];
        KeysCons(r);
        assert NoDupKeys(es) ==> NoDupKeys(r) by {
          if NoDupKeys(es) {
            NoDupTail(es);
            NoDupCons((k, v), es[1..]);
          }
        }
        r
      else
        var tail := Put(es[1..], k, v);
        var r := [es[0]] + tail;
        assert r[1..] == tail;
        KeysCons(r);
        assert NoDupKeys(es) ==> NoDupKeys(r) by {
          if NoDupKeys(es) {
            NoDupTail(es);
            NoDupCons(es[0], tail);
          }
        }
        r
  }

  lemma KeysCons(es: Edges)
    requires es != []
    ensures Keys(es) == [es[0].0] + Keys(es[1..])
  {
  }

  lemma NoDupTail(es: Edges)
    requires es != [] && NoDupKeys(es)
    ensures NoDupKeys(es[1..]) && es[0].0 !in Keys(es[1..])
  {
    var tail := es[1..];
    forall j | 0 <= j < |tail|
      ensures Keys(tail)[j] != es[0].0
    {
      assert tail[j] == es[j + 1];
    }
    forall i, j | 0 <= i < j < |tail|
      ensures tail[i].0 != tail[j].0
    {
      assert tail[i] == es[i + 1] && tail[j] == es[j + 1];
    }
  }

  lemma NoDupCons(e: (Coin, real), tail: Edges)
    requires NoDupKeys(tail) && e.0 !in Keys(tail)
    ensures NoDupKeys([e] + tail)
  {
    var r := [e] + tail;
    forall i, j | 0 <= i < j < |r|
      ensures r[i].0 != r[j].0
    {
      assert r[j] == tail[j - 1];
      assert Keys(tail)[j - 1] == tail[j - 1].0;
      if i > 0 {
        assert r[i] == tail[i - 1];
      }
    }
  }

  /** The dict stored under `c`; a missing key reads as the empty dict. */
  function Out(g: Graph, c: Coin): Edges
  {
    if c in g then g[c] else []
  }

  /** In a dict, looking up a stored key finds its own value. */
  lemma {:induction false} LookupStored(es: Edges, i: nat)
    requires NoDupKeys(es) && i < |es|
    ensures Lookup(es, es[i].0) == Some(es[i].1)
  {
    if i > 0 {
      LookupStored(es[1..], i - 1);
    }
  }

  /** A value found by `Lookup` is stored in the list. */
  lemma {:induction false} LookupFound(es: Edges, k: Coin, v: real)
    requires Lookup(es, k) == Some(v)
    ensures (k, v) in es
  {
    if es[0].0 != k {
      LookupFound(es[1..], k, v);
    }
  }

  predicate HasEdge(g: Graph, x: Coin, y: Coin)
  {
    y in Keys(Out(g, x))
  }

  /** Every inner dict of the graph is a genuine dict. */
  predicate WellFormed(g: Graph)
  {
    forall c :: c in g ==> NoDupKeys(g[c])
  }

  // ---------------------------------------------------------------------------
  // The assignments the builder executes

  predicate EndsWith(s: string, suffix: string)
  {
    |suffix| <= |s| && s[|s| - |suffix|..] == suffix
  }

  /** `pair[: -len(primary)]`: the symbol with the anchor suffix removed. */
  function Secondary(pair: string, primary: string): (secondary: string)
    requires EndsWith(pair, primary)
    ensures secondary + primary == pair
  {
    pair[..|pair| - |primary|]
  }

  /** The two assignments one matching anchor causes. */
  function PairWrites(q: Quote, primary: Coin): seq<Write>
    requires q.ask != 0.0
  {
    if EndsWith(q.symbol, primary) then
      var secondary := Secondary(q.symbol, primary);
      [Write(primary, secondary, 1.0 / q.ask), Write(secondary, primary, q.bid)]
    else []
  }

  /** The assignments of the inner loop over `anchors` for one quote. */
  function AnchorWrites(q: Quote, anchors: seq<Coin>): seq<Write>
    requires q.ask != 0.0
  {
    if anchors == [] then []
    else AnchorWrites(q, anchors[..|anchors| - 1]) + PairWrites(q, anchors[|anchors| - 1])
  }

  /** The assignments one quote causes; a zero ask is skipped. */
  function QuoteWrites(q: Quote): seq<Write>
  {
    if q.ask == 0.0 then [] else AnchorWrites(q, PRIMARY)
  }

  /** The assignments of the whole build, in execution order. */
  function Writes(qs: seq<Quote>): seq<Write>
  {
    if qs == [] then [] else Writes(qs[..|qs| - 1]) + QuoteWrites(qs[|qs| - 1])
  }

  /** Executes one assignment `g[src][dst] = rate` (creating `g[src]` if needed). */
  function SetEdge(g: Graph, w: Write): Graph
  {
    g[w.src := Put(Out(g, w.src), w.dst, w.rate)]
  }

  function ApplyWrites(ws: seq<Write>): Graph
  {
    if ws == [] then map[] else SetEdge(ApplyWrites(ws[..|ws| - 1]), ws[|ws| - 1])
  }

  /** The graph `get_prices` returns for the given tickers. */
  function Build(qs: seq<Quote>): Graph
  {
    ApplyWrites(Writes(qs))
  }

  // ---------------------------------------------------------------------------
  // The builder as the source writes it

  method BuildGraph(quotes: seq<Quote>) returns (prepared: Graph)
    ensures prepared == Build(quotes)
  {
    prepared := map[];
    for i := 0 to |quotes|
      invariant prepared == Build(quotes[..i])
    {
      var q := quotes[i];
      ghost var done := Writes(quotes[..i]);
      if q.ask == 0.0 {
        assert prepared == Build(quotes[..i + 1]) by {
          WritesStep(quotes, i);
          assert done + [] == done;
        }
        continue;
      }
      prepared := AddQuote(prepared, q, done);
      assert prepared == Build(quotes[..i + 1]) by {
        WritesStep(quotes, i);
      }
    }
    assert quotes[..|quotes|] == quotes;
  }

  /**
   * The inner loop of `get_prices` for one quote with a nonzero ask: for
   * every anchor code the symbol ends with, write both edges of the pair.
   */
  method AddQuote(prepared0: Graph, q: Quote, ghost done: seq<Write>) returns (prepared: Graph)
    requires q.ask != 0.0 && prepared0 == ApplyWrites(done)
    ensures prepared == ApplyWrites(done + AnchorWrites(q, PRIMARY))
  {
    prepared := prepared0;
    assert prepared == ApplyWrites(done + AnchorWrites(q, PRIMARY[..0])) by {
      AnchorWritesStep(q, 0);
      assert done + [] == done;
    }
    for j := 0 to |PRIMARY|
      invariant prepared == ApplyWrites(done + AnchorWrites(q, PRIMARY[..j]))
    {
      var primary := PRIMARY[j];
      if EndsWith(q.symbol, primary) {
        MatchStep(done, q, j);
        var secondary := q.symbol[..|q.symbol| - |primary|];
        prepared := SetEdge(prepared, Write(primary, secondary, 1.0 / q.ask));
        prepared := SetEdge(prepared, Write(secondary, primary, q.bid));
      } else {
        NoMatchStep(done, q, j);
      }
    }
    assert PRIMARY[..|PRIMARY|] == PRIMARY;
  }

  /** One matching anchor: the two assignments extend the log by its pair. */
  lemma MatchStep(done: seq<Write>, q: Quote, j: nat)
    requires q.ask != 0.0 && j < |PRIMARY| && EndsWith(q.symbol, PRIMARY[j])
    ensures
      var primary := PRIMARY[j];
      var secondary := Secondary(q.symbol, primary);
      SetEdge(SetEdge(ApplyWrites(done + AnchorWrites(q, PRIMARY[..j])),
                      Write(primary, secondary, 1.0 / q.ask)),
              Write(secondary, primary, q.bid))
      == ApplyWrites(done + AnchorWrites(q, PRIMARY[..j + 1]))
  {
    var before := done + AnchorWrites(q, PRIMARY[..j]);
    var primary := PRIMARY[j];
    var secondary := Secondary(q.symbol, primary);
    var w1 := Write(primary, secondary, 1.0 / q.ask);
    var w2 := Write(secondary, primary, q.bid);
    assert ApplyWrites(before + [w1, w2]) == SetEdge(SetEdge(ApplyWrites(before), w1), w2) by {
      ApplyTwo(before, w1, w2);
    }
    assert done + AnchorWrites(q, PRIMARY[..j + 1]) == before + [w1, w2] by {
      AnchorWritesStep(q, j + 1);
    }
  }

  /** A non-matching anchor: the log is unchanged. */
  lemma NoMatchStep(done: seq<Write>, q: Quote, j: nat)
    requires q.ask != 0.0 && j < |PRIMARY| && !EndsWith(q.symbol, PRIMARY[j])
    ensures ApplyWrites(done + AnchorWrites(q, PRIMARY[..j + 1]))
            == ApplyWrites(done + AnchorWrites(q, PRIMARY[..j]))
  {
    AnchorWritesStep(q, j + 1);
    assert AnchorWrites(q, PRIMARY[..j + 1]) == AnchorWrites(q, PRIMARY[..j]) + [];
    assert AnchorWrites(q, PRIMARY[..j]) + [] == AnchorWrites(q, PRIMARY[..j]);
  }

  lemma WritesStep(quotes: seq<Quote>, i: nat)
    requires i < |quotes|
    ensures Writes(quotes[..i + 1]) == Writes(quotes[..i]) + QuoteWrites(quotes[i])
  {
    assert quotes[..i + 1][..i] == quotes[..i];
  }

  lemma AnchorWritesStep(q: Quote, j: nat)
    requires q.ask != 0.0 && j <= |PRIMARY|
    ensures j == 0 ==> AnchorWrites(q, PRIMARY[..j]) == []
    ensures j > 0 ==> AnchorWrites(q, PRIMARY[..j]) ==
                      AnchorWrites(q, PRIMARY[..j - 1]) + PairWrites(q, PRIMARY[j - 1])
  {
    if j > 0 {
      assert PRIMARY[..j][..j - 1] == PRIMARY[..j - 1];
    }
  }

  // ---------------------------------------------------------------------------
  // Properties of the build

  /** The rate written into `g[x][y]` (zero when the edge is absent). */
  function Rate(g: Graph, x: Coin, y: Coin): real
  {
    match Lookup(Out(g, x), y)
    case Some(r) => r
    case None => 0.0
  }

  /** A quote with a zero ask adds no edge, whatever its bid. */
  lemma ZeroAskAddsNothing(qs: seq<Quote>, q: Quote)
    requires q.ask == 0.0
    ensures Build(qs + [q]) == Build(qs)
  {
    assert (qs + [q])[..|qs|] == qs;
    assert Writes(qs + [q]) == Writes(qs);
  }

  lemma {:induction false} AnchorWritesNone(q: Quote, anchors: seq<Coin>)
    requires q.ask != 0.0
    requires forall a :: a in anchors ==> !EndsWith(q.symbol, a)
    ensures AnchorWrites(q, anchors) == []
  {
    if anchors != [] {
      AnchorWritesNone(q, anchors[..|anchors| - 1]);
    }
  }

  /** A quote whose symbol ends with no anchor code adds no edge. */
  lemma NoAnchorAddsNothing(qs: seq<Quote>, q: Quote)
    requires forall a :: a in PRIMARY ==> !EndsWith(q.symbol, a)
    ensures Build(qs + [q]) == Build(qs)
  {
    assert (qs + [q])[..|qs|] == qs;
    if q.ask != 0.0 {
      AnchorWritesNone(q, PRIMARY);
    }
    assert Writes(qs + [q]) == Writes(qs);
  }


  /** The targets of the assignments made from `x`, in execution order. */
  function Targets(ws: seq<Write>, x: Coin): seq<Coin>
  {
    if ws == [] then []
    else Targets(ws[..|ws| - 1], x) + (if ws[|ws| - 1].src == x then [ws[|ws| - 1].dst] else [])
  }

  /** `s` with every element after its first occurrence dropped. */
  function FirstOccurrences(s: seq<Coin>): seq<Coin>
  {
    if s == [] then []
    else
      var prefix := FirstOccurrences(s[..|s| - 1]);
      if s[|s| - 1] in prefix then prefix else prefix + [s[|s| - 1]]
  }

  lemma {:induction false} FirstOccurrencesMembers(s: seq<Coin>, y: Coin)
    ensures y in FirstOccurrences(s) <==> y in s
  {
    if s != [] {
      FirstOccurrencesMembers(s[..|s| - 1], y);
      assert s == s[..|s| - 1] + [s[|s| - 1]];
    }
  }

  lemma {:induction false} TargetsMembers(ws: seq<Write>, x: Coin, y: Coin)
    ensures y in Targets(ws, x) <==> exists r :: Write(x, y, r) in ws
  {
    if ws != [] {
      var n := |ws| - 1;
      TargetsMembers(ws[..n], x, y);
      assert ws == ws[..n] + [ws[n]];
      if ws[n].src == x && ws[n].dst == y {
        assert Write(x, y, ws[n].rate) == ws[n];
      }
    }
  }

  /**
   * The keys of `g[x]` are the targets of the assignments from `x`, each at
   * the position of its FIRST assignment: overwriting never moves a key.
   */
  lemma {:induction false} KeysInFirstWriteOrder(ws: seq<Write>, x: Coin)
    ensures Keys(Out(ApplyWrites(ws), x)) == FirstOccurrences(Targets(ws, x))
  {
    if ws != [] {
      var n := |ws| - 1;
      var w := ws[n];
      KeysInFirstWriteOrder(ws[..n], x);
      if w.src == x {
        var t := Targets(ws[..n], x);
        assert Targets(ws, x) == t + [w.dst];
        assert (t + [w.dst])[..|t|] == t;
      } else {
        assert Targets(ws, x) == Targets(ws[..n], x);
      }
    }
  }

  /** `g[x][y]` exists exactly when some assignment wrote it. */
  lemma EdgeIffWritten(ws: seq<Write>, x: Coin, y: Coin)
    ensures HasEdge(ApplyWrites(ws), x, y) <==> exists r :: Write(x, y, r) in ws
  {
    KeysInFirstWriteOrder(ws, x);
    FirstOccurrencesMembers(Targets(ws, x), y);
    TargetsMembers(ws, x, y);
  }

  /** `g[x][y]` is absent when no assignment wrote it. */
  /** An assignment to `g[w.src][w.dst]` is read back from there. */
  lemma SetEdgeSame(g: Graph, w: Write)
    ensures Lookup(Out(SetEdge(g, w), w.src), w.dst) == Some(w.rate)
  {
    assert Out(SetEdge(g, w), w.src) == Put(Out(g, w.src), w.dst, w.rate);
  }

  /** An assignment to `g[w.src][w.dst]` leaves every other entry as it was. */
  lemma SetEdgeOther(g: Graph, w: Write, x: Coin, y: Coin)
    requires w.src != x || w.dst != y
    ensures Lookup(Out(SetEdge(g, w), x), y) == Lookup(Out(g, x), y)
  {
    if w.src == x {
      assert Out(SetEdge(g, w), x) == Put(Out(g, x), w.dst, w.rate);
    } else {
      assert Out(SetEdge(g, w), x) == Out(g, x);
    }
  }

  lemma {:induction false} LookupUnwritten(ws: seq<Write>, x: Coin, y: Coin)
    requires forall k :: 0 <= k < |ws| ==> ws[k].src != x || ws[k].dst != y
    ensures Lookup(Out(ApplyWrites(ws), x), y) == None
  {
    if ws != [] {
      var n := |ws| - 1;
      var prefix := ws[..n];
      assert ApplyWrites(ws) == SetEdge(ApplyWrites(prefix), ws[n]);
      assert forall k :: 0 <= k < n ==> prefix[k] == ws[k];
      LookupUnwritten(prefix, x, y);
      SetEdgeOther(ApplyWrites(prefix), ws[n], x, y);
    }
  }

  /** The value of `g[x][y]` is that of the LAST assignment to it. */
  lemma {:induction false} LookupIsLastWrite(ws: seq<Write>, x: Coin, y: Coin, k: nat)
    requires k < |ws| && ws[k].src == x && ws[k].dst == y
    requires forall k' :: k < k' < |ws| ==> ws[k'].src != x || ws[k'].dst != y
    ensures Lookup(Out(ApplyWrites(ws), x), y) == Some(ws[k].rate)
  {
    var n := |ws| - 1;
    var prefix := ws[..n];
    assert ApplyWrites(ws) == SetEdge(ApplyWrites(prefix), ws[n]);
    if k < n {
      assert forall k' :: k < k' < n ==> prefix[k'] == ws[k'];
      assert prefix[k] == ws[k];
      LookupIsLastWrite(prefix, x, y, k);
      SetEdgeOther(ApplyWrites(prefix), ws[n], x, y);
    } else {
      SetEdgeSame(ApplyWrites(prefix), ws[n]);
    }
  }

  lemma {:induction false} ApplyWritesWellFormed(ws: seq<Write>)
    ensures WellFormed(ApplyWrites(ws))
  {
    if ws != [] {
      ApplyWritesWellFormed(ws[..|ws| - 1]);
    }
  }

  /** The built graph is a dict of dicts: no inner dict repeats a key. */
  lemma BuildWellFormed(qs: seq<Quote>)
    ensures WellFormed(Build(qs))
  {
    ApplyWritesWellFormed(Writes(qs));
  }

  /** An assignment of one anchor's pair has that anchor at one end and its reverse beside it. */
  lemma PairWritesShape(q: Quote, a: Coin, w: Write)
    requires q.ask != 0.0 && w in PairWrites(q, a)
    ensures w.src == a || w.dst == a
    ensures exists r :: Write(w.dst, w.src, r) in PairWrites(q, a)
  {
    var ws := PairWrites(q, a);
    if w == ws[0] {
      assert Write(w.dst, w.src, ws[1].rate) == ws[1];
    } else {
      assert Write(w.dst, w.src, ws[0].rate) == ws[0];
    }
  }

  /** Each assignment has an anchor at one end, and its reverse is also assigned. */
  lemma {:induction false} WritesShape(qs: seq<Quote>, w: Write)
    requires w in Writes(qs)
    ensures w.src in PRIMARY || w.dst in PRIMARY
    ensures exists r :: Write(w.dst, w.src, r) in Writes(qs)
  {
    var n := |qs| - 1;
    var q := qs[n];
    if w in Writes(qs[..n]) {
      WritesShape(qs[..n], w);
      var r :| Write(w.dst, w.src, r) in Writes(qs[..n]);
      assert Write(w.dst, w.src, r) in Writes(qs);
    } else {
      AnchorWritesShape(q, PRIMARY, w);
      var r :| Write(w.dst, w.src, r) in AnchorWrites(q, PRIMARY);
      assert Write(w.dst, w.src, r) in Writes(qs);
    }
  }

  lemma {:induction false} AnchorWritesShape(q: Quote, anchors: seq<Coin>, w: Write)
    requires q.ask != 0.0 && w in AnchorWrites(q, anchors)
    ensures w.src in anchors || w.dst in anchors
    ensures exists r :: Write(w.dst, w.src, r) in AnchorWrites(q, anchors)
  {
    var n := |anchors| - 1;
    var prefix := AnchorWrites(q, anchors[..n]);
    if w in prefix {
      AnchorWritesShape(q, anchors[..n], w);
      var r :| Write(w.dst, w.src, r) in prefix;
      assert Write(w.dst, w.src, r) in AnchorWrites(q, anchors);
    } else {
      PairWritesShape(q, anchors[n], w);
      var r :| Write(w.dst, w.src, r) in PairWrites(q, anchors[n]);
      assert Write(w.dst, w.src, r) in AnchorWrites(q, anchors);
    }
  }

  /** Every edge of the built graph has an anchor currency at one end. */
  lemma EdgesAreAnchored(qs: seq<Quote>, x: Coin, y: Coin)
    requires HasEdge(Build(qs), x, y)
    ensures x in PRIMARY || y in PRIMARY
  {
    EdgeIffWritten(Writes(qs), x, y);
    var r :| Write(x, y, r) in Writes(qs);
    WritesShape(qs, Write(x, y, r));
  }

  /** Every edge of the built graph has its reverse edge. */
  lemma EdgesComeInPairs(qs: seq<Quote>, x: Coin, y: Coin)
    requires HasEdge(Build(qs), x, y)
    ensures HasEdge(Build(qs), y, x)
  {
    EdgeIffWritten(Writes(qs), x, y);
    EdgeIffWritten(Writes(qs), y, x);
    var r :| Write(x, y, r) in Writes(qs);
    WritesShape(qs, Write(x, y, r));
  }

  lemma SuffixOfSuffix(s: string, a: string, b: string)
    requires EndsWith(s, a) && EndsWith(s, b)
    ensures EndsWith(a, b) || EndsWith(b, a)
  {
    if |a| <= |b| {
      assert b[|b| - |a|..] == s[|s| - |a|..];
    } else {
      assert a[|a| - |b|..] == s[|s| - |b|..];
    }
  }

  /** No anchor code is a suffix of another: only BTC and LTC share a last letter. */
  lemma AnchorsSuffixFree(a: Coin, b: Coin)
    requires a in PRIMARY && b in PRIMARY
    ensures EndsWith(b, a) ==> a == b
  {
    if EndsWith(b, a) {
      assert a[|a| - 1] == b[|b| - 1];
    }
  }

  /** So a pair symbol matches at most one anchor. */
  lemma OneAnchorPerSymbol(s: string, a: Coin, b: Coin)
    requires a in PRIMARY && b in PRIMARY
    requires EndsWith(s, a) && EndsWith(s, b)
    ensures a == b
  {
    SuffixOfSuffix(s, a, b);
    AnchorsSuffixFree(a, b);
    AnchorsSuffixFree(b, a);
  }

  lemma {:induction false} AnchorWritesSingle(q: Quote, anchors: seq<Coin>, a: Coin)
    requires q.ask != 0.0
    requires a in anchors && EndsWith(q.symbol, a)
    requires forall b :: b in anchors && EndsWith(q.symbol, b) ==> b == a
    requires forall i, j :: 0 <= i < j < |anchors| ==> anchors[i] != anchors[j]
    ensures AnchorWrites(q, anchors) == PairWrites(q, a)
  {
    var n := |anchors| - 1;
    var prefix := anchors[..n];
    if anchors[n] == a {
      assert a !in prefix;
      AnchorWritesNone(q, prefix);
    } else {
      assert a in prefix;
      AnchorWritesSingle(q, prefix, a);
    }
  }

  lemma ApplyTwo(ws: seq<Write>, w1: Write, w2: Write)
    ensures ApplyWrites(ws + [w1, w2]) == SetEdge(SetEdge(ApplyWrites(ws), w1), w2)
  {
    var ws1 := ws + [w1];
    var ws2 := ws + [w1, w2];
    assert ws2[..|ws2| - 1] == ws1 && ws2[|ws2| - 1] == w2;
    assert ws1[..|ws1| - 1] == ws && ws1[|ws1| - 1] == w1;
    assert ApplyWrites(ws1) == SetEdge(ApplyWrites(ws), w1);
  }

  /**
   * After the build, the last quote's pair owns its two edges:
   * `g[anchor][secondary] == 1/ask` and `g[secondary][anchor] == bid`.
   * When the secondary equals the anchor, the second assignment overwrites
   * the first.
   */
  /** A quote with a nonzero ask and an anchor suffix makes exactly its pair's two assignments. */
  lemma LastQuoteWrites(qs: seq<Quote>, q: Quote, primary: Coin)
    requires q.ask != 0.0 && primary in PRIMARY && EndsWith(q.symbol, primary)
    ensures Writes(qs + [q]) == Writes(qs) + PairWrites(q, primary)
  {
    forall b | b in PRIMARY && EndsWith(q.symbol, b)
      ensures b == primary
    {
      OneAnchorPerSymbol(q.symbol, b, primary);
    }
    AnchorWritesSingle(q, PRIMARY, primary);
    assert (qs + [q])[..|qs|] == qs;
  }

  lemma LastQuoteWins(qs: seq<Quote>, q: Quote, primary: Coin)
    requires q.ask != 0.0 && primary in PRIMARY && EndsWith(q.symbol, primary)
    ensures Lookup(Out(Build(qs + [q]), Secondary(q.symbol, primary)), primary) == Some(q.bid)
    ensures Secondary(q.symbol, primary) != primary ==>
            Lookup(Out(Build(qs + [q]), primary), Secondary(q.symbol, primary)) == Some(1.0 / q.ask)
  {
    var ws := Writes(qs);
    var secondary := Secondary(q.symbol, primary);
    var w1, w2 := Write(primary, secondary, 1.0 / q.ask), Write(secondary, primary, q.bid);
    LastQuoteWrites(qs, q, primary);
    var g1 := SetEdge(ApplyWrites(ws), w1);
    assert Build(qs + [q]) == SetEdge(g1, w2) by {
      ApplyTwo(ws, w1, w2);
    }
    SetEdgeSame(g1, w2);
    if secondary != primary {
      SetEdgeSame(ApplyWrites(ws), w1);
      SetEdgeOther(g1, w2, primary, secondary);
    }
  }
}
