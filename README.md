# Limit order book: a verified model of the matching core

This project models the `OrderBook` class of a single-instrument limit order book in Dafny. The book has:

- two sides of price levels: bids best-first descending, asks best-first ascending;
- a FIFO queue of resting orders in each level (`Depth`), with a cached `totalQty`;
- an identifier-to-order index and an identifier-to-price index.

The operations modelled are:

- limit insert (`processLimitOrder`);
- the market sweep (`processMarketOrder`);
- `cancelOrder`;
- `modifyOrder`, which cancels and re-adds with `timestamp + 1`;
- the crossing loop `matchOrders`;
- `addOrder`, which dispatches to insert or sweep and then runs the crossing loop;
- the queries `getBestBid`, `getBestAsk` and `getDepth`.

## Layout

- `orders.dfy` (`Orders`): the integer aliases, `Side`, `OrderType` and the `Order` record.
- `keys.dfy` (`PriceKeys`): the largest and the smallest key of a finite set. These are the first keys of a map ordered by `std::greater` and by `std::less`.
- `levels.dfy` (`Levels`): the `Depth` level and the queue operations. These are `push_back` with `totalQty +=`, and the scan in `cancelOrder` as a function (`RemoveId`) and as a loop (`FindOrder`).
- `book.dfy` (`BookState`): the book as a value `Book(bids, asks, orders, orderPrices)`, and the invariant `Valid`. The invariant requires:
  - every level is non-empty;
  - every level's `totalQty` equals the sum of its queue's quantities;
  - identifiers within a level are distinct;
  - every queued order agrees with its index entry in both indices;
  - every indexed identifier is queued where its price index says.
- `operations.dfy` (`BookOps`): the single-step operations as functions of the book, and the lemmas that each keeps `Valid`. The operations are:
  - `LimitInsert`;
  - `Cancel`;
  - `FillHead`, the fill bookkeeping that `matchOrders` and `processMarketOrder` share;
  - `Evict`.
- `matching.dfy` (`Matching`): the crossing loop `Match`, the market sweep `Sweep`, `Add` and `Modify` as functions.
- `properties.dfy` (`BookProperties`): what matching, the sweep, `addOrder` and `modifyOrder` guarantee.
- `orderbook.dfy` (`OrderBooks`): the `OrderBook` class.
  - Its four fields are updated in place by imperative methods with the source's loops.
  - Each state-changing method is proved to move `State()` exactly as the matching function above.
  - So every property of the functions holds of the object.

The symmetric BUY and SELL branches of the source are written once, with a `Side` parameter. `SideOf` and `WithSide` select and replace one side.

## Model

| member | source | states |
|---|---|---|
| PriceKeys.MaxKey | include/OrderBook.h:35 | The best bid key is a key of the side and no key is larger (first key under `std::greater`). |
| PriceKeys.MinKey | include/OrderBook.h:37 | The best ask key is a key of the side and no key is smaller (first key of the ascending map). |
| BookState.BestPrice | src/OrderBook.cpp:95-96 | The first key of a non-empty side is one of its keys and beats every other key: highest for bids, lowest for asks. |
| BookState.Put | src/OrderBook.cpp:138-139 | Writing a level back erases its price exactly when its queue is empty; no other price changes and no new price appears. |
| BookState.ValidHasHead | src/OrderBook.cpp:105-106 | In a valid book every non-empty side has a front order at its best level, so `front()` is always defined. |
| BookState.ValidIndexedOrder | include/OrderBook.h:39-40 | For a resting identifier, both indices hold an entry. The index copy is the very order queued at the indexed price on its side, with the same quantity. |
| Levels.PushBack | src/OrderBook.cpp:160-161 | Appending puts the order at the tail. It keeps the cached total equal to the sum of quantities, adds exactly the new identifier, and keeps identifiers distinct when the new one is fresh. |
| Levels.FirstIndexOf | src/OrderBook.cpp:58-59 | The index found is the first whose identifier matches; it equals the queue length exactly when the identifier is absent. |
| Levels.RemoveId | src/OrderBook.cpp:57-67 | A level without the identifier is unchanged. Otherwise exactly the first order with that identifier is erased, the others keep their queue order, and the total drops by its quantity floored at zero. The cached total stays consistent and the identifiers distinct. |
| Levels.FindOrder | src/OrderBook.cpp:58-67 | The front-to-back scan loop stops at exactly the index `FirstIndexOf` names. |
| BookOps.FillHead | src/OrderBook.cpp:186-197 | One fill against a side's front order never touches the opposite side. |
| BookOps.FillHeadEffect | src/OrderBook.cpp:113-139 | A fill takes from the front order of the best level and nothing else on its side changes. The level's total drops by the fill. A partial fill rewrites the front order in place, and its remaining quantity in the order index. A full fill pops it, erases it from both indices, and erases the level exactly when it was the level's only order. |
| BookOps.LimitInsert | src/OrderBook.cpp:157-171 | A limit insert leaves a level at the order's price and the other side untouched, and both indices gain the identifier. Like `emplace`, it keeps an existing order-index entry and records the order only for a new identifier. |
| BookOps.LimitInsertTotal | src/OrderBook.cpp:157-166 | The order's side's resting total grows by exactly its quantity and the other side's is unchanged. |
| BookOps.Cancel | src/OrderBook.cpp:39-91 | An identifier the order index lacks changes nothing. Otherwise its order-index entry goes, it is absent from the price index afterwards, and no price-index entry appears. |
| BookOps.CancelTotal | src/OrderBook.cpp:53-87 | Cancel of a resting order lowers its side's resting total by exactly its quantity and leaves the other side's total unchanged. |
| BookOps.LimitInsertValid | src/OrderBook.cpp:157-171 | A limit order with a fresh identifier keeps the book valid. |
| BookOps.LimitInsertShape | src/OrderBook.cpp:157-171 | Any limit order, resting identifier or not, lands at the tail of its price level, behind every order already queued there; the level is created if absent, the level's key set gains only that price, every other level and the other side are unchanged. Like `emplace`, each index gains the entry for a new identifier and is left exactly as it was for an identifier it already holds. |
| BookOps.CancelIsEvict | src/OrderBook.cpp:39-91 | On a valid book, cancel of a resting order removes it from the position where the scan finds it, which always exists. |
| BookOps.CancelValid | src/OrderBook.cpp:39-91 | Cancel keeps a valid book valid, including the erase of a level left empty. |
| BookOps.CancelUnknown | src/OrderBook.cpp:40-41 | Cancel of an identifier absent from the order index leaves the whole book unchanged. |
| BookOps.CancelIdempotent | src/OrderBook.cpp:39-41 | A second cancel of the same identifier is a no-op. |
| BookOps.CancelShrinks | src/OrderBook.cpp:39-91 | Cancel only erases: no price level or index entry appears, and an uncrossed book stays uncrossed. |
| BookOps.CancelResting | src/OrderBook.cpp:43-90 | After cancel of a resting order, the identifier is absent from both indices and from its level's queue. The level's total dropped by the order's quantity, and the level is erased exactly when the order was its only one. |
| BookOps.CancelFrame | src/OrderBook.cpp:53-90 | Cancel changes only the cancelled order's level and its two index entries. The other levels of its side, the other side, and every other index entry are unchanged. |
| BookOps.FillHeadValid | src/OrderBook.cpp:113-136 | One fill keeps the book valid and adds no index entry or level. The side's resting total drops by exactly the filled quantity, and the order count drops by one exactly when the front order is used up. |
| BookOps.HeadWithinTotal | src/OrderBook.cpp:183-184 | The front order never carries more than its side's resting total. |
| Matching.MatchStep | src/OrderBook.cpp:105-111 | The step's trade price is the best ask, and it is not above the best bid. Its quantity, the smaller of the two front quantities, is stated by `MatchStepTrade`; the fills of the two fronts are `FillHead`s, which `FillHeadEffect` describes. |
| Matching.Match | src/OrderBook.cpp:93-141 | The crossing loop ends in a valid, uncrossed book: one side is empty or best bid < best ask. It adds no identifier and no price level. It terminates because each step removes a front order. |
| Matching.MatchStepValid | src/OrderBook.cpp:105-139 | One matching step keeps the book valid and uses up at least one front order. Each side's resting total drops by exactly the traded quantity. |
| Matching.Sweep | src/OrderBook.cpp:174-229 | The market sweep is the chain of front fills (`SweepsTo`); each is a `FillHead`, which takes from the front order of the best level (`FillHeadEffect`). It ends valid, never adds an index entry or level, and leaves the other side untouched. It takes exactly `min(quantity, opposite resting total)`, and it exhausts the side whenever quantity is left over. |
| Matching.Add | src/OrderBook.cpp:7-16 | After `addOrder` the book is valid and not crossed. |
| Matching.Modify | src/OrderBook.cpp:18-37 | After `modifyOrder` the book is valid. A zero quantity trades nothing, and a nonzero modify of a resting order leaves the book uncrossed. |
| Matching.Requeued | src/OrderBook.cpp:32-35 | The re-added order is the old one with only the new quantity and a strictly later timestamp (`timestamp + 1`). |
| BookProperties.MatchIdle | src/OrderBook.cpp:94-99 | On an uncrossed book the crossing loop changes nothing and trades nothing. |
| BookProperties.MatchIdempotent | src/OrderBook.cpp:93-141 | Running the crossing loop again right after it changes nothing. |
| BookProperties.MatchStepTrade | src/OrderBook.cpp:105-111 | A matching step trades `min(front buy, front sell)` at the front sell's price, which is the best ask and not above the best bid. |
| BookProperties.MatchConserves | src/OrderBook.cpp:108-117 | Over the whole crossing loop, each side's resting total drops by exactly the sum of the traded quantities. |
| BookProperties.MarketNeverRests | src/OrderBook.cpp:7-16 | After `addOrder` of a market order there is no new identifier and no new price level, and the market order's own identifier does not rest. |
| BookProperties.ModifyZeroIsCancel | src/OrderBook.cpp:20-23 | `modifyOrder(id, 0)` is exactly `cancelOrder(id)` and trades nothing. |
| BookProperties.ModifyUnknown | src/OrderBook.cpp:25-26 | A nonzero modify of an identifier the order index does not hold changes nothing. |
| BookProperties.ModifyRequeues | src/OrderBook.cpp:28-36 | A nonzero modify of a resting order on an uncrossed book trades nothing. It re-queues the order with the same identifier, side and price, the new quantity and `timestamp + 1`, at the tail of its level, so every order already at that price now precedes it. |
| OrderBooks.OrderBook.constructor | src/OrderBook.cpp:5 | The default-constructed book is empty and valid. |
| OrderBooks.OrderBook.BestBid | src/OrderBook.cpp:143-145 | The highest bid price (no bid is higher), or 0 when there are no bids. |
| OrderBooks.OrderBook.BestAsk | src/OrderBook.cpp:147-149 | The lowest ask price (no ask is lower), or 0 when there are no asks. |
| OrderBooks.OrderBook.GetDepth | src/OrderBook.cpp:151-155 | The bid level at the price if any, else the ask level, else an empty level. |
| OrderBooks.OrderBook.GetDepthValid | src/OrderBook.cpp:151-155 | In a valid book the reported level caches the sum of its quantities. It queues only limit orders at that price, with distinct identifiers, each one resting. |
| OrderBooks.OrderBook.ProcessLimitOrder | src/OrderBook.cpp:157-171 | The fields move exactly as `LimitInsert`, including the `emplace` that keeps an existing index entry. With a fresh identifier the book stays valid. |
| OrderBooks.OrderBook.FillFront | src/OrderBook.cpp:113-136 | The in-place fill bookkeeping moves the fields exactly as `FillHead`. |
| OrderBooks.OrderBook.CancelOrder | src/OrderBook.cpp:39-91 | The fields move exactly as `Cancel`, through the scan loop, and a valid book stays valid. |
| OrderBooks.OrderBook.TradeFronts | src/OrderBook.cpp:105-139 | One loop iteration of `matchOrders` performs `MatchStep`. It returns that step's trade, keeps the book valid and lowers the order count. |
| OrderBooks.OrderBook.MatchOrders | src/OrderBook.cpp:93-141 | The loop leaves the book and the trade list exactly as `Match`, so the book is valid and uncrossed. |
| OrderBooks.OrderBook.SweepFront | src/OrderBook.cpp:182-198 | One inner-loop fill keeps the book valid and keeps it on the path of the sweep (`SweepsTo`). It strictly lowers the resting count plus the quantity left. |
| OrderBooks.OrderBook.ProcessMarketOrder | src/OrderBook.cpp:174-229 | The two nested loops leave the book exactly as `Sweep` of the opposite side, and valid. |
| OrderBooks.OrderBook.AddOrder | src/OrderBook.cpp:7-16 | The book and the trades end exactly as `Add`: insert or sweep, then the crossing loop. |
| OrderBooks.OrderBook.ModifyOrder | src/OrderBook.cpp:18-37 | The book and the trades end exactly as `Modify`: cancel on zero, ignore an unknown identifier, else cancel and re-add the order with the new quantity and `timestamp + 1`. |

## Left out

- The engine around the book (`MatchingEngine`) is not part of this model. This covers its worker thread, the event queue, the atomic flags and counters, the snapshot, the clock that stamps orders, and the floating-point price conversions.
- The event variant (`Events.h`) and the WebSocket client (`BinanceWS.h`) are not part of this model: one is plumbing, the other network I/O.
- `printBook` and the console trade line are console output. The trade quantity and price are returned as a `seq<Trade>` instead, in the order the lines would be printed.
- `processMarketOrder` prints no trade line for its fills, so the trades `AddOrder` returns for a market order are only those of the crossing loop that follows the sweep, as in the source.
- Orders: `OrderId`, `Quantity`, `Price` and `Timestamp` are unsigned 64-bit in the source and `nat` here. `totalQty += quantity` and `timestamp + 1` are modelled without 64-bit wrap-around.
- OrderBooks.OrderBook.AddOrder: requires that a limit order's identifier is not already resting. The source does not check this: its `emplace` would keep the old index entries while the queue gets a second copy. `ProcessLimitOrder` alone models that case faithfully and only promises validity for a fresh identifier.
- Matching.Add: requires, for the same reason, that a limit order's identifier is not already resting; for a resting identifier only the limit insert itself is modelled (`BookOps.LimitInsertShape` states the duplicate queue entry and the unchanged indices), not the matching that follows or the validity of the result.
- OrderBooks.OrderBook.TradeFronts: `matchOrders` reads `buy.id` and `sell.id` after `pop_front` through a reference to the popped element, which is undefined behaviour in C++. The model uses the identifier as it was before the pop, which is what the code evidently intends.
- Time priority follows the code. Within a level, orders are matched by queue position and the timestamp is never compared. A design that matches by earlier timestamp agrees with this only while timestamps grow in insertion order.
- In `processMarketOrder` an emptied level is erased after its inner loop, and in `matchOrders` at the end of the iteration. The model erases it inside the fill, at the moment its queue becomes empty. No observable state differs, because the emptied level is never read in between.
- Floating point does not occur in the core. The `symbol` field is kept as an uninterpreted string and is never read.
