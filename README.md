# Triangular-arbitrage search, modelled in Dafny

`arbitrage_bot.py` polls an exchange's order-book tickers and builds a price
graph from them. It then searches the graph for three-hop conversion cycles
from USDT and from BUSD whose compounded rate, after a fee on every hop,
ends above 1.0. It keeps one cycle per set of coins and reports the cycles by
profit, highest first.

This project models one polling iteration of that core. There are four
modules, one per stage.

- `price_graph.dfy`, module `PriceGraph`: the graph builder in `get_prices`.
  - `BuildGraph` is an imperative method with the same nested loops as the
    source, over quotes and over the `PRIMARY` anchor codes.
  - It is proved equal to `Build`. `Build` replays the log of assignments
    the loops perform (`Writes`) on a map from coins to inner dicts.
  - An inner dict is an association list, so insertion order is kept.
  - `Put` is Python's dict assignment: an existing key is overwritten in
    place, and a new key is appended at the end.
- `triangle_search.dfy`, module `TriangleSearch`: `recurse_triangle`, as the
  mutually recursive functions `Recurse` (the generator) and `RecurseEdges`
  (its loop over `pairs.items()`).
  - Its reference is `Walks`: every walk of a given length, in nested
    edge-insertion order.
  - `Select` turns the qualifying walks into records, and `Compound` is the
    amount after a walk.
- `find_triangles.dfy`, module `TriangleFilter`: `find_triangles`.
  - `FindTriangles` runs the two loops (USDT, then BUSD) through `PassNew`,
    sharing one list `triangles` of the coin sets passed so far.
  - It is proved equal to the gate `FirstBySet` over `Candidates`, the two
    searches' outputs concatenated.
- `ranking.dfy`, module `Ranking`: `sorted(..., key=profit, reverse=True)`.
  - It is modelled as `RankByProfit`, a stable insertion sort.
  - `RunIteration` chains build, search and ranking for one iteration.

The search lemmas assume `WellFormed`: every inner dict has unique keys.
Every Python dict has that property, and `BuildWellFormed` proves it for
every graph the builder produces.

Rates, amounts and the fee are `real`. `FEE` is the constant 0.00075 of line
20, and `DEPTH` is the default depth 3 of `recurse_triangle`.

Where the code and its usual description differ, the model follows the code:

- **No `break` in the anchor loop.** Every `PRIMARY` code that a symbol ends
  with writes its pair of edges, not only the first one.
  `OneAnchorPerSymbol` proves that no symbol ends with two of the eleven
  codes, so with this `PRIMARY` list the two readings agree.
- **Coins are appended while the recursion unwinds.** The recorded `coins`
  list the walk backwards, so the walk USDT→BTC→ETH→USDT is recorded as
  `[USDT, ETH, BTC, USDT]` (`TriangleRecord`).
- **Only USDT and BUSD seed the search**, not every anchor code.

## Model

| member | source | states |
|---|---|---|
| PriceGraph.Put | arbitrage_bot.py:67-68 | Dict assignment: afterwards the key reads the new value and every other key reads as before. An existing key keeps its position and a new key goes last. Keys stay unique. |
| PriceGraph.Secondary | arbitrage_bot.py:66 | `pair[:-len(primary)]` followed by the anchor gives back the symbol. |
| PriceGraph.BuildGraph | arbitrage_bot.py:57-69 | The loops of `get_prices` leave exactly the graph obtained by applying their assignments in order. They skip a zero ask, and for every anchor suffix they write `1/ask` and `bid`. The inner loop is `AddQuote`. |
| PriceGraph.AddQuote | arbitrage_bot.py:64-68 | The inner loop over `PRIMARY` for one quote with a nonzero ask extends the graph by exactly that quote's assignments, anchor by anchor in list order. |
| PriceGraph.SetEdgeSame | arbitrage_bot.py:67-68 | After `prepared[src][dst] = rate`, reading `prepared[src][dst]` gives `rate`. |
| PriceGraph.SetEdgeOther | arbitrage_bot.py:67-68 | `prepared[src][dst] = rate` leaves every other entry of the graph as it was. |
| PriceGraph.ZeroAskAddsNothing | arbitrage_bot.py:62-63 | A quote with ask 0.0 leaves the graph unchanged, whatever its bid. |
| PriceGraph.NoAnchorAddsNothing | arbitrage_bot.py:64-68 | A quote whose symbol ends with no `PRIMARY` code leaves the graph unchanged. |
| PriceGraph.EdgesAreAnchored | arbitrage_bot.py:64-68 | Every edge of a built graph has a `PRIMARY` code at one end. |
| PriceGraph.EdgesComeInPairs | arbitrage_bot.py:67-68 | Every edge of a built graph has its reverse edge too. |
| PriceGraph.WritesShape | arbitrage_bot.py:64-68 | Every assignment the builder performs touches an anchor, and the reverse assignment is performed as well. |
| PriceGraph.AnchorsSuffixFree | arbitrage_bot.py:22-34 | No `PRIMARY` code is a proper suffix of another. |
| PriceGraph.OneAnchorPerSymbol | arbitrage_bot.py:22-34 | A symbol ends with at most one `PRIMARY` code, so the missing `break` never matters. |
| PriceGraph.AnchorWritesSingle | arbitrage_bot.py:64-68 | When exactly one anchor matches, the anchor loop performs exactly that anchor's two assignments. |
| PriceGraph.LastQuoteWrites | arbitrage_bot.py:62-68 | A quote with a nonzero ask and an anchor suffix adds exactly that anchor's two assignments to the log. |
| PriceGraph.LastQuoteWins | arbitrage_bot.py:65-68 | After a quote `S+A` has been processed, `graph[S][A]` is its bid and, when `S != A`, `graph[A][S]` is `1/ask`. Earlier quotes are overwritten. |
| PriceGraph.LookupIsLastWrite | arbitrage_bot.py:67-68 | Each stored rate is the one written by the last assignment to that edge. |
| PriceGraph.LookupUnwritten | arbitrage_bot.py:67-68 | An edge that was never assigned is absent. |
| PriceGraph.EdgeIffWritten | arbitrage_bot.py:67-68 | An edge exists if and only if some assignment wrote it. |
| PriceGraph.KeysInFirstWriteOrder | arbitrage_bot.py:67-68 | Each inner dict lists its keys in the order of their first assignment, so an overwrite does not move a key. |
| PriceGraph.BuildWellFormed | arbitrage_bot.py:57-68 | Every inner dict of a built graph has unique keys. |
| TriangleSearch.RecurseEnumeratesWalks | arbitrage_bot.py:88-99 | `recurse_triangle` yields, in nested edge-insertion order, one record per walk of `depth_left` edges from `current_coin` that ends at `starting_coin` with a compounded amount above 1.0, and nothing else. |
| TriangleSearch.RecurseEdgesEnumeratesWalks | arbitrage_bot.py:90-97 | The loop over `pairs.items()`, from any point on, yields the records of the walks whose first edge is among the remaining ones, in that order. |
| TriangleSearch.RecordPrepend | arbitrage_bot.py:92-97 | Appending `current_coin` to a deeper record is the same as recording the walk one edge longer at the front, at the amount before that hop. |
| TriangleSearch.TriangleRecord | arbitrage_bot.py:88-99 | A record has `depth_left + 1` coins, running from `starting_coin` to `current_coin`. `coins[i+1] → coins[i]` is an edge for every i. Its profit is above 1.0 and equals the amount compounded hop by hop along the forward walk. |
| TriangleSearch.RecurseComplete | arbitrage_bot.py:88-99 | Every walk of `depth_left` edges from `current_coin` to `starting_coin` that compounds above 1.0 is reported, backwards, with that amount. |
| TriangleSearch.ReportedStartHasEdges | arbitrage_bot.py:89-91 | A start coin that yields a cycle has an edge out of it and an edge into it, so a coin without outgoing edges yields nothing. |
| TriangleSearch.CompoundIsProduct | arbitrage_bot.py:92 | The amount after a walk is the starting amount times the product over its edges of `rate * (1 - FEE)`. |
| TriangleSearch.CompoundNeverGains | arbitrage_bot.py:92 | If every rate is between 0 and 1, then no walk ends above 1.0 when it starts at 1.0 or below. |
| TriangleSearch.NoGainNoRecord | arbitrage_bot.py:88-99 | In a graph whose rates all lie in [0, 1], starting at 1.0 or below, nothing is reported. |
| TriangleFilter.FindTriangles | arbitrage_bot.py:72-85 | `find_triangles` yields exactly the gate `FirstBySet` applied to the USDT records followed by the BUSD records, starting from an empty list of seen sets. |
| TriangleFilter.PassNew | arbitrage_bot.py:75-79 | One of the two loops passes on the records whose coin set is not yet listed, and lists their sets. |
| TriangleFilter.FirstBySetConcat | arbitrage_bot.py:73-85 | Both loops share one list: gating `a + b` is gating `a`, then gating `b` against the sets `a` added. |
| TriangleFilter.FirstBySetSubsequence | arbitrage_bot.py:75-79 | The output is a subsequence of the records searched: nothing is added or reordered. |
| TriangleFilter.FirstBySetDistinct | arbitrage_bot.py:76-79 | No two output triangles have equal coin sets, and none has a set listed before the gate ran. |
| TriangleFilter.KeptIsFirst | arbitrage_bot.py:76-79 | Each output triangle is the first record searched with its coin set. |
| TriangleFilter.FirstIsKept | arbitrage_bot.py:76-79 | The first record with each new coin set is passed on. |
| TriangleFilter.KeepDistinct | arbitrage_bot.py:76-79 | Records whose coin sets are new and pairwise different all pass the gate. |
| TriangleFilter.FirstBySetIdempotent | arbitrage_bot.py:76-79 | Running the gate again over its own output changes nothing. |
| TriangleFilter.FoundAreCycles | arbitrage_bot.py:72-85 | Every triangle found is a cycle of three edges from USDT or BUSD back to itself, listed backwards over graph edges, with profit above 1.0. |
| Ranking.InsertPermutation | arbitrage_bot.py:49 | Inserting a record adds exactly that record. |
| Ranking.InsertSorted | arbitrage_bot.py:49 | Inserting into a list ranked by profit keeps it ranked. |
| Ranking.InsertStable | arbitrage_bot.py:49 | Inserting puts the new record ahead of the records of equal profit and keeps their order. |
| Ranking.RankPermutation | arbitrage_bot.py:49 | The ranking is a permutation of the found triangles. |
| Ranking.RankSorted | arbitrage_bot.py:49 | The ranking lists profits from highest to lowest. |
| Ranking.RankStable | arbitrage_bot.py:49 | Triangles of equal profit keep their discovery order, since `sorted` stays stable under `reverse=True`. |
| Ranking.RankedUnique | arbitrage_bot.py:49 | Two lists ranked by non-increasing profit that hold the same records in the same order at every profit are equal. |
| Ranking.StableSortIsRank | arbitrage_bot.py:49 | Any ordering of the found triangles by non-increasing profit that keeps ties in discovery order is `RankByProfit`. So the model's insertion sort gives exactly what Python's stable `sorted(..., reverse=True)` gives. |
| Ranking.RunIteration | arbitrage_bot.py:44-49 | One iteration builds the graph from the quotes. It ranks a permutation of the found triangles by non-increasing profit, keeps ties in discovery order, and every triangle it ranks is a 3-edge cycle from USDT or BUSD with profit above 1.0. |

## Left out

- The exchange client and the parsing of ticker fields (arbitrage_bot.py:55-56, 60-61) are network I/O. The builder takes already-parsed quotes `(symbol, ask, bid)` as a parameter.
- `config.py` only reads credentials from the environment and is not part of this model.
- The CSV writer, timestamps, timer and console output of `main` and `describe_triangle` (arbitrage_bot.py:38-41, 51, 102-116) are output only. This includes the rounding of the percentage and the reverse-edge lookup on line 115.
- The `ITERATIONS` loop (arbitrage_bot.py:43-46) carries no state from one pass to the next. Only one iteration is modelled (`RunIteration`).
- Floating point: rates, `1 / ask`, the fee and the compounded amounts are exact reals. IEEE rounding is not modelled.
- The search's `prices[current_coin]` on the `defaultdict` inserts an empty dict for a coin that has none. The model reads a missing coin as having no edges and leaves the graph as it is. Such an entry holds no edge, so no result changes.
- Generators are modelled as the finite sequences they produce, since `list(...)` consumes them completely. The source reassigns `triangle["coins"]` only on records freshly built by the deeper call, so that reassignment is modelled as building a new record.
- `FindTriangles` runs its two loops through one method `PassNew`. The source writes the same loop twice, once per seed.
