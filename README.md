# Continuous double-auction matching engine

This project models the matching engine of `MatchingEngine.py`, class `MatchingEngine`. The engine
keeps three lists:

- a bid book, best entry first;
- an ask book, best entry first;
- an append-only trade log (`filled_orders`).

It handles one order at a time. A limit order is matched against the opposite book while it crosses
that book's head, and any remainder rests on its own book. A market order has its price forced to 0.
It then sweeps the opposite book, and if that book runs out, it rests what is left at price 0.

Each execution step (`execute_buy`, `execute_sell`) matches the order against the head of the opposite
book. The step logs one trade and updates both volumes. It returns a flag that says whether the order
still has volume to match.

## Files

- `books.dfy`, module `Books`: the entry and trade records and the two sort keys. It also holds `Insert`,
  the sorted insert that `insert(0, …)` followed by `sorted(…)` performs, and the scan-forward search
  for the first non-MARKET entry.
- `matching.dfy`, module `Matching`: the engine as functions of its state: one execution step, the two
  dispatch loops, the handlers. It holds the lemmas about them: sort order, volume conservation, fill
  tags, which orders rest, and the invalid-code paths.
- `engine.dfy`, module `Engine`: the engine as the source writes it. The class `MatchingEngine` has the
  three lists as `seq` fields. The class `Order` stands for the caller's order list, whose price and
  volume the handlers overwrite. Each `while` loop of the two handlers is a method of its own
  (`MatchAsks`, `MatchBids`, `SweepAsks`, `SweepBids`) with the source's break. The market loops keep
  the source's loop test; the limit loops add to theirs the emptiness check `askBook != []` or
  `bidBook != []` described below. Every
  method's contract says that the new state, and the order as the method leaves it, are exactly what
  the `Matching` functions give.
- `findings.dfy`, module `Findings`: the loop of `handle_limit_order` as written, and the crash it
  reaches (see Findings).
- `scenarios.dfy`, module `Scenarios`: concrete runs. The method `TwoOrders` is a client that drives
  the engine object only through its method contracts, and so shows what they give a caller.

## Modelling decisions

- Prices are integers (ticks). The engine only compares prices and takes `min` of them.
- Volumes are natural numbers.
- An order keeps its raw integer type and side codes (`LIMIT = 1`, `MARKET = 2`, `BUY = 1`, `SELL = 2`),
  so an undefined code can be represented. A resting entry's type is `Limit | Market`. Its `Code()` is
  the value that the sort key negates.
- Sorting is modelled as `Insert`: the result of a stable sort of `[e] + book` on a sorted book. The new
  entry goes directly ahead of the first entry that does not sort strictly ahead of it. So it goes
  ahead of old entries that have an equal key.
- The trade record has the source's column order: price, volume, then the incoming order's id and tag,
  then the resting entry's id and tag. The source's docstring calls the two id columns "Bid Order ID"
  and "Ask Order ID". For a sell order, `execute_sell` puts the sell order's id in the first column.
  The model follows the code, not the labels.
- The scan-forward search once runs past the end of a book in which every entry is MARKET. This is the
  loop at `MatchingEngine.py:71-78` and `108-112`. The model makes it a precondition:
  - `HasPriced` on `ExecuteBuy`/`ExecuteSell`;
  - `Ready` on the handlers. It is required only where the loop would really call the execution step.
    For a limit order, that is when the order crosses the opposite book's head. For a market order, it
    is when the order has volume and the opposite book is not empty.
  `Ready` is checked only when an order arrives. `PopKeepsPriced` and `ExecuteKeepsBook` show that it
  then holds on every later pass of the loop. This is because MARKET entries sort ahead of LIMIT ones.
- The limit-order loop tests the head of the opposite book (`MatchingEngine.py:147`, `160`). The model
  adds an emptiness check to that test: when an execution step empties the book, matching stops and the
  remainder rests. Without the check, the loop indexes an empty list (see Findings).
- An undefined order type makes `handle_order` evaluate `self.UndefinedOrderErr`, which is an
  `AttributeError` (`MatchingEngine.py:63`). The handler for it also names a non-existent `OrderType.IOC`
  (`MatchingEngine.py:65`). The model treats the order as dropped: no book and no trade changes. An
  undefined side raises `UndefinedOrderErr`, and the handler catches it. That is also modelled as
  dropping the order. In the market handler the price has already been set to 0 by then.
- A zero-volume limit order rests when the opposite book is empty: the insert at
  `MatchingEngine.py:144` is not guarded by the volume. When such an order crosses, it logs a trade of
  volume 0.
- The trade log reports the incoming order first. The class docstring (`MatchingEngine.py:42`) labels
  the columns "Bid Order ID" and "Ask Order ID", but for a sell the code puts the bid's id in the second
  id column; the model follows the code.

## Model

| member | source | states |
|---|---|---|
| `Books.Precedes` | MatchingEngine.py:145 | the sort keys: bid key `(-type, -price, id)`, ask key `(-type, price, id)` (line 158); a sorts strictly ahead of b when its key is smaller, the volume taking no part |
| `Books.Sorted` | MatchingEngine.py:153 | a book is in key order: no entry is preceded by an entry behind it |
| `Books.Insert` | MatchingEngine.py:144-145 | the book after the insert-and-re-sort holds exactly the old entries plus the new one |
| `Books.Ahead` | MatchingEngine.py:152-153 | the number of leading entries that sort strictly ahead of the new entry: every one of them precedes it, and the next one does not |
| `Books.InsertKeepsSorted` | MatchingEngine.py:157-158 | inserting into a sorted book (bid key `(-type, -price, id)`, ask key `(-type, price, id)`) gives a sorted book |
| `Books.NotAheadAfterPoint` | MatchingEngine.py:165-166 | in a sorted book no entry from the insert position on sorts strictly ahead of the new entry, so the stable sort leaves old entries with an equal key behind it |
| `Books.PricedIndex` | MatchingEngine.py:71-78 | the scan-forward search stops at an entry that is not MARKET, and every entry before it is MARKET |
| `Books.PopKeepsPriced` | MatchingEngine.py:99-100 | removing the head of a sorted book that holds a LIMIT entry leaves an empty book or one that still holds a LIMIT entry |
| `Matching.Crosses` | MatchingEngine.py:147 | the loop test: a buy crosses an ask at or below its price, a sell (line 160) a bid at or above its price |
| `Matching.ExecutionPrice` | MatchingEngine.py:70-77 | for a limit buy the trade price is the lower of the order's price and the first non-MARKET ask's price; for a market buy and for every sell it is the first non-MARKET resting entry's price |
| `Matching.Execute` | MatchingEngine.py:79-103 | one step logs one trade: volume = min(order volume, head volume), order volume after + traded = order volume before, book depth after + traded = depth before; the head is removed when exhausted and decremented otherwise; the order is tagged FILL exactly when it has no volume left and the head exactly when it was exhausted; continue exactly when order volume > head volume, and then volume remains |
| `Matching.ExecuteKeepsBook` | MatchingEngine.py:83-100 | an execution step leaves the opposite book sorted and, unless it is now empty, holding a LIMIT entry |
| `Matching.LimitLoop` | MatchingEngine.py:147-150 | the matching loop of a limit order leaves the opposite book sorted; it stops only with no volume left, an empty opposite book, or a head the order does not cross; it keeps the earlier trades as a prefix and every new trade is with this order |
| `Matching.LimitLoopConserves` | MatchingEngine.py:147-150 | traded volume + remaining volume = initial volume, traded volume + opposite depth after = opposite depth before; the loop logs nothing exactly when the order does not cross the opposite head |
| `Matching.MarketLoop` | MatchingEngine.py:177-186 | the sweep of a market order either uses up its volume with its own book unchanged, or empties the opposite book and rests all the volume left, as a MARKET entry at the order's price; it keeps the earlier trades as a prefix and every new trade is with this order |
| `Matching.MarketLoopConserves` | MatchingEngine.py:188-197 | traded volume + remaining volume = initial volume, and traded volume + opposite depth after = opposite depth before |
| `Matching.LimitOrder` | MatchingEngine.py:141-166 | the limit handler for a valid side, by definition: rest the whole order on an empty opposite book, otherwise run `LimitLoop` and rest a remainder |
| `Matching.DispatchLimit` | MatchingEngine.py:139-171 | `handle_limit_order`, by definition: `LimitOrder` for BUY or SELL, and an undefined side leaves the state and the order as they were |
| `Matching.MarketOrder` | MatchingEngine.py:176-197 | the market handler for a valid side, by definition: run `MarketLoop` over both books and the log |
| `Matching.DispatchMarket` | MatchingEngine.py:173-202 | `handle_market_order`, by definition: the price becomes 0, then `MarketOrder` for BUY or SELL; an undefined side changes nothing else |
| `Matching.Dispatch` | MatchingEngine.py:53-66 | `handle_order`, by definition: route LIMIT and MARKET orders to their handlers; an undefined type leaves the state and the order as they were |
| `Matching.DispatchKeepsValid` | MatchingEngine.py:53-66 | handling any order leaves both books sorted by their keys |
| `Matching.DispatchConserves` | MatchingEngine.py:57-61 | handling any order keeps the old trade log as a prefix; traded volume + remaining volume = initial volume; only the order's volume and price change; the price becomes 0 for a market order and is unchanged otherwise |
| `Matching.UndefinedOrderDropped` | MatchingEngine.py:62-66 | an order whose type is neither LIMIT nor MARKET, or whose side is neither BUY nor SELL, changes neither book nor the log |
| `Matching.LimitOrderRests` | MatchingEngine.py:139-171 | a limit order rests exactly when the opposite book was empty or volume remains, and then with its remaining volume at its price; a fully filled order never rests; a resting remainder does not cross the opposite head; the opposite book loses exactly the traded volume |
| `Matching.MarketOrderRests` | MatchingEngine.py:173-202 | a market order rests only after emptying the opposite book, at price 0 with all the volume left; otherwise its own book is unchanged; the opposite book loses exactly the traded volume |
| `Engine.ScanToPriced` | MatchingEngine.py:69-78 | the scan-forward loop returns the index of the first non-MARKET entry |
| `Engine.Order.constructor` | MatchingEngine.py:29-31 | an order holds type, side, price, volume and id |
| `Engine.MatchingEngine.constructor` | MatchingEngine.py:48-51 | a new engine has empty books and an empty log |
| `Engine.MatchingEngine.ExecuteBuy` | MatchingEngine.py:68-103 | appends exactly one trade and leaves the earlier ones; the ask book and the order's volume become what `Execute` gives; the bid book is unchanged; the books stay sorted |
| `Engine.MatchingEngine.ExecuteSell` | MatchingEngine.py:105-137 | appends exactly one trade and leaves the earlier ones; the bid book and the order's volume become what `Execute` gives; the ask book is unchanged; the books stay sorted |
| `Engine.MatchingEngine.MatchAsks` | MatchingEngine.py:147-150 | the loop of a limit buy leaves the ask book, the log and the order's volume as `LimitLoop` gives them; the bid book is unchanged; the books stay sorted |
| `Engine.MatchingEngine.MatchBids` | MatchingEngine.py:160-163 | the loop of a limit sell leaves the bid book, the log and the order's volume as `LimitLoop` gives them; the ask book is unchanged; the books stay sorted |
| `Engine.MatchingEngine.SweepAsks` | MatchingEngine.py:177-186 | the loop of a market buy leaves both books, the log and the order's volume as `MarketLoop` gives them; the books stay sorted |
| `Engine.MatchingEngine.SweepBids` | MatchingEngine.py:188-197 | the loop of a market sell leaves both books, the log and the order's volume as `MarketLoop` gives them; the books stay sorted |
| `Engine.MatchingEngine.HandleLimitOrder` | MatchingEngine.py:139-171 | the books, the log and the order become what `DispatchLimit` gives; the books stay sorted |
| `Engine.MatchingEngine.HandleMarketOrder` | MatchingEngine.py:173-202 | the books, the log and the order become what `DispatchMarket` gives; the books stay sorted |
| `Engine.MatchingEngine.HandleOrder` | MatchingEngine.py:53-66 | the books, the log and the order become what `Dispatch` gives; the books stay sorted |
| `Findings.LimitLoopAsWritten` | MatchingEngine.py:147-150 | the limit loop without the emptiness check, by definition: an empty opposite book at the loop test is a crash |
| `Findings.AsWrittenCrashesWhenBookExhausted` | MatchingEngine.py:147-150 | the limit loop as written gives the same result as the corrected loop, except exactly when the order empties the opposite book with volume left; then it crashes |
| `Findings.AsWrittenCrashExample` | MatchingEngine.py:147 | a buy of 10 at 100 against a single ask of 5 at 100 crashes as written |
| `Findings.AsWrittenSellCrashExample` | MatchingEngine.py:160 | a sell of 8 at 90 against a single bid of 5 at 100 crashes as written |
| `Findings.CorrectedRestsRemainder` | MatchingEngine.py:151-153 | with the emptiness check that order trades 5 and rests 5 at 100 on the bid book |
| `Scenarios.LimitRestsOnEmptyBook` | MatchingEngine.py:142-145 | a buy limit order on empty books rests whole |
| `Scenarios.EqualVolumesFillBoth` | MatchingEngine.py:120-128 | equal volumes fill both sides, FILL/FILL; the sell's id is logged first |
| `Scenarios.LargerSellRestsRemainder` | MatchingEngine.py:129-137 | a larger sell trades at the bid's price and, with the emptiness check the model adds to the loop test, rests its remainder; the loop as written crashes on this input at line 160 (`Findings.AsWrittenSellCrashExample`) |
| `Scenarios.MarketRestsAtZero` | MatchingEngine.py:174-182 | a market buy on an empty ask book rests at price 0 |
| `Scenarios.UndefinedSideChangesNothing` | MatchingEngine.py:167-170 | an undefined side changes nothing |
| `Scenarios.RestingMarketBidBlocksSell` | MatchingEngine.py:160 | a resting market bid at price 0 heads the bid book, so a limit sell above 0 does not cross |
| `Scenarios.PriceFromFirstLimitEntry` | MatchingEngine.py:72-83 | the trade price comes from the first LIMIT ask; the volume and the id come from the head |

## Findings

| source | as written | input that shows it | evidently intended | confidence | as-written member | corrected member |
|---|---|---|---|---|---|---|
| MatchingEngine.py:147 | after `execute_buy` returns 1 and has emptied the ask book, the loop test reads `self.ask_book[0][0]` of an empty list and raises `IndexError` | empty bid book, ask book `[[100, 5, 1, LIMIT]]`, then BUY LIMIT price 100 volume 10 id 2 | stop matching when the opposite book is empty and rest the remainder (5 at 100) | not executed | `Findings.AsWrittenCrashExample` | `Findings.CorrectedRestsRemainder` |
| MatchingEngine.py:160 | after `execute_sell` returns 1 and has emptied the bid book, the loop test reads `self.bid_book[0][0]` of an empty list and raises `IndexError` | bid book `[[100, 5, 1, LIMIT]]`, empty ask book, then SELL LIMIT price 90 volume 8 id 2 | stop matching when the bid book is empty and rest the remainder (3 at 90) | not executed | `Findings.AsWrittenSellCrashExample` | `Scenarios.LargerSellRestsRemainder` |

## Left out

- `print_books`, all console output, and the printing in `UndefinedOrderErr`: these only render.
- CSV ingestion and the pandas/numpy calls: file I/O. The price conversion to a float is replaced by integer prices.
- `MovingAverage.py` and `RealTimeStrategy.py`: floating-point statistics and file input outside the engine.
- How exceptions propagate: a validation failure is modelled as dropping the order with the state unchanged.
- The crashes on an undefined order type (`AttributeError` at line 63, `OrderType.IOC` at line 65) are modelled as dropping the order, not as stopping the program.
- Engine.MatchingEngine.HandleOrder: it requires `Ready`, so it does not model the `IndexError` of the scan-forward search on a book whose entries are all MARKET.
- Negative volumes: volumes are natural numbers. The feed's `int(...)` could produce a negative one.
- Entries are values: the source's inner lists are mutable, but nothing else refers to them, so no aliasing is lost.
- Order ids are not checked for uniqueness or order, and neither does the source check them.
