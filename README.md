# Prediction market engine, modelled in Dafny

This is a model of the economic engine of a play-money prediction market bot
(`src/prediction_market.rs`). Users trade Yes and No shares of a question
against a constant-product automated market maker. Each market keeps two
reserves, `y` (Yes) and `n` (No). The engine keeps:

- every user's money (a user without an entry has 1000);
- the live markets;
- a counter that hands out market ids.

Every operation takes an economy and returns a new one or an error, so a
failure leaves the economy it was given untouched. The model keeps that shape.
`Economy` and `Market` are datatypes. `create_market`, `buy`, `sell` and `tip`
are functions from an economy to a `Result`. `resolve_market` pays its holders
one by one in a loop, so it is a method with a `while` loop over the holders.

Files:

- `markets.dfy` (module `Markets`): shares, positions and markets. Also the
  probability, and the total outstanding shares of each kind.
- `amm.dfy` (module `Amm`): the buy and sell pricing rules, with the algebra
  behind them.
- `economy.dfy` (module `PredictionMarket`): the economy, its queries and its
  operations. Also the invariant `Valid` that every reachable economy keeps.
- `properties.dfy` (module `EconomyProperties`): results that span several
  operations. Each operation keeps `Valid`; a buy undone by a sale leaves no
  trace; an emptied position still blocks the other kind; a worked example.

`Valid` says:

- no balance is negative;
- every live market has an id below the counter, so an id is never handed out twice;
- both reserves of every market are positive;
- no position is negative;
- every market is collateralized: `y` plus all Yes shares equals `n` plus all
  No shares, so resolution pays out the same total whichever way it goes.

## Model

| member | source | states |
|---|---|---|
| `Markets.NewMarket` | src/prediction_market.rs:58-67 | A new market has both reserves at the creation cost, so it is live and its probability is 50. It has no positions and keeps its creator, question and description. |
| `Markets.CastU8` | src/prediction_market.rs:71 | The float-to-`u8` cast truncates: on 0..255 the result is the floor of its argument. |
| `Markets.Probability` | src/prediction_market.rs:69-72 | For a live market the probability is `floor(100·n/(y+n))`, which lies in 0..99. |
| `Markets.Info` | src/prediction_market.rs:74-83 | The market info carries the id, creator, question, description and positions. Its probability is the market's, at most 99 for a live market. |
| `Markets.OutstandingSplit` | src/prediction_market.rs:26 | The total shares of a kind equal any one user's holding plus everyone else's. Proved by induction. |
| `Markets.OutstandingUpdate` | src/prediction_market.rs:26 | Replacing one user's position changes the total of a kind by the difference between the new and old holding. |
| `Markets.OutstandingRemove` | src/prediction_market.rs:219 | Removing one user's position lowers the total of a kind by that holding. |
| `Amm.BuyTrade` | src/prediction_market.rs:289-314 | After a buy of `m`, the untouched reserve is its old value plus `m`. The reserve of the bought kind is its old value plus `m` minus the shares delivered. The product `y·n` is unchanged and both reserves stay positive. The buyer receives at least `m` shares. |
| `Amm.TakeFromOneSide` | src/prediction_market.rs:297-306 | The buy formula `(n·y−k)/y` restores the product, leaves that reserve positive and is at least `m`. |
| `Amm.Radicand` | src/prediction_market.rs:251 | The quantity under the square root equals `(y−n)² + 4k`, so it is non-negative when `k ≥ 0`. |
| `Amm.Roots` | src/prediction_market.rs:251 | `(y−x)(n−x) − k` factors as `(x − p)(x − p₂)`, where `p` and `p₂` are the two roots given by the square root. |
| `Amm.SaleFacts` | src/prediction_market.rs:243-261 | The computed sale price restores the pre-sale product and is the smallest amount that does. Both reserves stay positive, and the price is non-negative when the sold quantity is. |
| `Amm.SmallerRoot` | src/prediction_market.rs:251-261 | For a positive target product, the smaller root restores it and is the least amount that does. Withdrawing it leaves both reserves positive. |
| `Amm.SmallerRootNonNegative` | src/prediction_market.rs:251 | When the target product does not exceed the current one, which is the case after shares are folded in, the smaller root is not negative. |
| `Amm.SellTrade` | src/prediction_market.rs:243-261 | The sold shares are folded into their reserve and the price is taken from both reserves. The price is the smallest root of `(y−p)(n−p) = k`, with `k` the product before the fold. The product is restored, both reserves stay positive, and the price is non-negative for a non-negative quantity. |
| `PredictionMarket.NewEconomy` | src/prediction_market.rs:87-93 | A new economy has counter 0 and no markets, and every user has the starting balance. |
| `PredictionMarket.BalanceOf` | src/prediction_market.rs:111-113 | A user with an entry has that amount; a user without one has 1000. |
| `PredictionMarket.Credit` | src/prediction_market.rs:115-117 | Adding through the balance entry creates the entry if it was missing. It changes only that user's balance, by exactly the amount. |
| `PredictionMarket.MarketName` | src/prediction_market.rs:95-101 | Returns the question exactly when the market exists, and a not-found error otherwise. |
| `PredictionMarket.MarketProbability` | src/prediction_market.rs:103-109 | Returns the market's probability exactly when the market exists, at most 99 for a live market, and a not-found error otherwise. |
| `PredictionMarket.AscendingIds` | src/prediction_market.rs:336-338 | Lists a set of market ids in strictly increasing order, which is the ordered map's iteration order. Every id appears. |
| `PredictionMarket.MarketsHeld` | src/prediction_market.rs:122-131 | The ids, increasing, of exactly the markets where the user holds a position. |
| `PredictionMarket.PortfolioOf` | src/prediction_market.rs:119-133 | The cash is the user's balance. There is one entry per market where the user holds a position, in id order, each with that market's question and the user's position. |
| `PredictionMarket.ListMarkets` | src/prediction_market.rs:335-339 | Lists one info per live market, in strictly increasing id order, each equal to that market's info. |
| `PredictionMarket.CreateMarket` | src/prediction_market.rs:135-163 | Fails with an overflow error exactly when the counter is at the u64 maximum. Otherwise it fails with insufficient funds exactly when the creator has less than 50. Otherwise the new market takes the old counter value and the counter goes up by 1. The creator pays 50, no one else's balance changes, the new market is fresh (probability 50, no positions), and every other market is unchanged. The returned info is the new market's info: its id, the caller as creator, the given question and description, probability 50 and no positions. |
| `PredictionMarket.Buy` | src/prediction_market.rs:267-333 | Fails exactly when the price is negative, the caller cannot afford it, the market is missing or the caller holds the other kind, with the error in that order of checks. The reserve underflow errors never occur. On success the caller pays exactly the price and no one else's balance changes. The caller's position of that kind grows by the shares bought, or is created. Reserves move as `BuyTrade` says, and nothing else changes. |
| `PredictionMarket.Sell` | src/prediction_market.rs:200-265 | Fails exactly when the market is missing or the caller has no position. With a quantity it also fails when the quantity is negative or exceeds the holding. The underflow errors never occur. Selling everything removes the entry. Selling a quantity reduces the holding and keeps the entry, even at 0. The caller is credited exactly the sale price, reserves move as `SellTrade` says, and nothing else changes. |
| `PredictionMarket.Tip` | src/prediction_market.rs:341-361 | Fails exactly when the amount is negative or the caller cannot afford it. Otherwise the caller loses the amount and the recipient gains it (no net change when they are the same user). Markets and the counter are unchanged. |
| `PredictionMarket.ResolveMarket` | src/prediction_market.rs:165-198 | Fails when the market is missing or the caller is not its creator. Otherwise each holder of the winning kind gains their quantity and losing holders gain nothing. The creator also gains the winning-side reserve. The market is removed, the counter and all other markets are unchanged, the returned info is the market's, and `Valid` is kept. |
| `EconomyProperties.NewEconomyValid` | src/prediction_market.rs:87-93 | A new economy satisfies `Valid`. |
| `EconomyProperties.NewMarketValid` | src/prediction_market.rs:58-67 | A new market is live, has no positions and is collateralized. |
| `EconomyProperties.CreateMarketPreservesValid` | src/prediction_market.rs:143-160 | In a valid economy, the id a new market takes is not in use, and the result is valid. |
| `EconomyProperties.BuyKeepsMarketValid` | src/prediction_market.rs:289-331 | A buy adds the delivered shares to the outstanding total of their kind and takes them from that reserve, so the market stays live, non-negative and collateralized. |
| `EconomyProperties.BuyPreservesValid` | src/prediction_market.rs:267-333 | A successful buy on a valid economy yields a valid economy. |
| `EconomyProperties.SellKeepsMarketValid` | src/prediction_market.rs:212-261 | A sale moves the sold shares from the outstanding total back into their reserve and takes the price from both reserves, so the market stays live, non-negative and collateralized. |
| `EconomyProperties.SellPreservesValid` | src/prediction_market.rs:200-265 | A successful sale on a valid economy yields a valid economy. |
| `EconomyProperties.TipPreservesValid` | src/prediction_market.rs:341-361 | A successful tip on a valid economy yields a valid economy. |
| `EconomyProperties.OneRootBelowMidpoint` | src/prediction_market.rs:251 | Below `(y+n)/2`, at most one withdrawal amount restores a given product. |
| `EconomyProperties.RoundTripRoot` | src/prediction_market.rs:251 | For reserves `y+m` and `n+m`, the smallest amount that restores `y·n` is exactly `m`. |
| `EconomyProperties.BuyThenSellPricing` | src/prediction_market.rs:243-314 | Selling exactly what a buy delivered pays back exactly the buy's price and restores both reserves. |
| `EconomyProperties.BuyThenSellAll` | src/prediction_market.rs:200-333 | Take a buy by a user with no position, followed at once by selling the whole position. The sale returns all the shares bought for exactly the price paid. Every market and every balance end as they started. |
| `EconomyProperties.EmptiedPositionStillBlocks` | src/prediction_market.rs:222-242 | Selling a whole holding as an explicit quantity succeeds and leaves a zero entry of the same kind. Any later buy of the other kind by that user then fails. |
| `EconomyProperties.BuyYesRaisesOdds` | src/prediction_market.rs:305-312 | A buy of Yes with a positive amount strictly raises `n/(y+n)`. |
| `EconomyProperties.BuyNoLowersOdds` | src/prediction_market.rs:296-303 | A buy of No with a positive amount strictly lowers `n/(y+n)`. |
| `EconomyProperties.OddsOrder` | src/prediction_market.rs:70 | The pool with the smaller Yes-to-No ratio has the larger `n/(y+n)`. |
| `EconomyProperties.FirstTradeExample` | src/prediction_market.rs:135-333 | A worked example. A creator opens a market and keeps 950. A newcomer then buys Yes for 100 at reserves (50, 50). The newcomer gets 400/3 shares, keeps 900 and holds the only position, and the probability becomes 90. |

## Behaviour of the code worth knowing

- Buying, tipping and selling an explicit quantity all accept an amount of exactly 0. Their error messages ask for a "positive" amount (src/prediction_market.rs:230, 276, 349), but the check is a sign test, which lets zero through. A zero buy creates a zero position.
- Selling an explicit quantity keeps the position entry even when it reaches 0. That zero entry still blocks buying the other kind. Only selling the whole position removes the entry.
- `buy` debits the caller before it looks up the market. So a caller who cannot afford the price gets "insufficient funds" even for a missing market.
- A buy restores the reserve product exactly to its value before the trade; it is not raised by the money put in.
- This engine has no close times, no trade history and no "undo" outcome for resolution.

## Left out

- Floating point: `f64` amounts are exact reals. NaN, negative zero and rounding are not modelled. The `as u8` cast is modelled with truncation and saturation. A zero denominator in the probability gives 255 or 0, as the float infinity or NaN would.
- Square root: `sqrt` is a library call outside this model. `Sell` and `SellTrade` take it as a parameter that must return the non-negative square root of every non-negative number.
- `Buy` and `Sell` require the target market's reserves to be positive. `Valid` guarantees this for every reachable economy, and every operation is proved to keep `Valid`. The reasons differ:
  - `Buy` divides by a reserve. Real division by zero has no meaning, where `f64` would yield an infinity.
  - `Sell` divides only by 2. The requirement keeps the pre-sale product `y·n` positive, which makes the radicand positive and both reserve-underflow errors provably unreachable.
- The second error of `resolve_market` (a market vanishing between lookup and removal) cannot happen and is not modelled.
- In-place editing: the code edits a cloned economy through `&mut` entries. The model builds the new economy as a value. The intermediate states of that editing are not represented, only the result.
- User ids are generic in the engine and only ever compared for equality. The model fixes them to natural numbers.
- Read-only queries (`balance`, `portfolio`, `market_name`, `market_probability`, `list_markets`) are functions of an economy value, so they cannot change it. No separate statement is needed.
- `list_markets` returns a lazy iterator; the model returns the sequence it yields.
- `src/commands.rs` is not part of this model: the chat front end, its embeds, autocomplete, date parsing and the confirm/deny loop. Nor is `src/main.rs`: loading and saving the state file, the async runtime and the lock.
- `src/money.rs` and `src/share_quantity.rs` are not part of this model. The engine modelled here uses a single `f64` alias for money and shares.
- Serialisation of the economy is not part of this model.
