/** The economy: every user's money, every live market and the market-id
    counter. Each operation takes an economy and returns a new one or an
    error; the economy it was given is a value and is never changed. */
module PredictionMarket {
  import opened Markets
  import opened Amm

  /** What a user who has never been credited or debited owns. */
  const USER_START_BALANCE: Balance := 1000.0

  datatype Economy = Economy(
    nextMarketId: MarketId,
    userMoney: map<UserId, Balance>,
    markets: map<MarketId, Market>)

  datatype Error =
    | MarketNotFound
    | Unauthorized
    | IdOverflow
    | InsufficientFunds
    | NegativeAmount
    | NoSharesToSell
    | SellingMoreThanHeld
    | ConflictingPosition
    | ReserveUnderflow(kind: ShareKind)

  datatype Result<T> = Ok(value: T) | Err(error: Error)

  datatype Option<T> = None | Some(value: T)

  datatype Portfolio = Portfolio(cash: Balance, marketPositions: seq<(string, UserShareBalance)>)

  function NewEconomy(): (e: Economy)
    ensures e.nextMarketId == 0 && e.markets == map[]
    ensures forall u :: BalanceOf(e, u) == USER_START_BALANCE
  {
    Economy(0, map[], map[])
  }

  /** A user's money; a user with no entry has the starting balance. */
  function BalanceOf(e: Economy, user: UserId): (b: Balance)
    ensures user in e.userMoney ==> b == e.userMoney[user]
    ensures user !in e.userMoney ==> b == USER_START_BALANCE
  {
    if user in e.userMoney then e.userMoney[user] else USER_START_BALANCE
  }

  /** Adding `amount` (possibly negative) through the user's balance entry,
      which is first created at the starting balance if it is missing. */
  function Credit(e: Economy, user: UserId, amount: Balance): (e': Economy)
    ensures e'.userMoney.Keys == e.userMoney.Keys + {user}
    ensures BalanceOf(e', user) == BalanceOf(e, user) + amount
    ensures forall u :: u != user ==> BalanceOf(e', u) == BalanceOf(e, u)
    ensures e'.nextMarketId == e.nextMarketId && e'.markets == e.markets
  {
    e.(userMoney := e.userMoney[user := BalanceOf(e, user) + amount])
  }

  function MarketName(e: Economy, id: MarketId): (r: Result<string>)
    ensures r.Ok? <==> id in e.markets
    ensures r.Ok? ==> r.value == e.markets[id].question
    ensures r.Err? ==> r.error == MarketNotFound
  {
    if id in e.markets then Ok(e.markets[id].question) else Err(MarketNotFound)
  }

  function MarketProbability(e: Economy, id: MarketId): (r: Result<u8>)
    ensures r.Ok? <==> id in e.markets
    ensures r.Ok? && Live(e.markets[id]) ==> r.value <= 99
    ensures r.Ok? ==> r.value == Probability(e.markets[id])
    ensures r.Err? ==> r.error == MarketNotFound
  {
    if id in e.markets then Ok(Probability(e.markets[id])) else Err(MarketNotFound)
  }

  /** `least` is the smallest id of `ids`. */
  predicate IsLeast(least: MarketId, ids: set<MarketId>) {
    least in ids && forall id :: id in ids ==> least <= id
  }

  lemma {:induction false} LeastExists(ids: set<MarketId>)
    requires ids != {}
    ensures exists least :: IsLeast(least, ids)
    decreases ids
  {
    var x :| x in ids;
    if ids == {x} {
      assert IsLeast(x, ids);
    } else {
      LeastExists(ids - {x});
      var least :| IsLeast(least, ids - {x});
      var m := if x < least then x else least;
      forall id | id in ids
        ensures m <= id
      {
        if id != x {
          assert id in ids - {x};
        }
      }
      assert IsLeast(m, ids);
    }
  }

  /** Strictly increasing. */
  predicate Increasing(s: seq<MarketId>) {
    forall i, j :: 0 <= i < j < |s| ==> s[i] < s[j]
  }

  lemma PrependIncreasing(x: MarketId, s: seq<MarketId>)
    requires Increasing(s)
    requires forall id :: id in s ==> x < id
    ensures Increasing([x] + s)
  {
    var t := [x] + s;
    forall i, j | 0 <= i < j < |t|
      ensures t[i] < t[j]
    {
      assert t[j] == s[j - 1];
      if i > 0 {
        assert t[i] == s[i - 1];
      } else {
        assert s[j - 1] in s;
      }
    }
  }

  /** The ids of a set in increasing order: the iteration order of the ordered map. */
  function AscendingIds(ids: set<MarketId>): (r: seq<MarketId>)
    ensures Increasing(r)
    ensures forall id :: id in r <==> id in ids
    decreases ids
  {
    if ids == {} then []
    else
      LeastExists(ids);
      var least :| IsLeast(least, ids);
      var rest := AscendingIds(ids - {least});
      PrependIncreasing(least, rest);
      [least] + rest
  }

  /** The ids among `ids`, in the same order, of the markets where `user` holds a position. */
  function MarketsHeldAmong(e: Economy, user: UserId, ids: seq<MarketId>): (r: seq<MarketId>)
    requires forall id :: id in ids ==> id in e.markets
    requires Increasing(ids)
    ensures Increasing(r)
    ensures forall id :: id in r <==> id in ids && user in e.markets[id].shares
  {
    if ids == [] then []
    else
      var rest := MarketsHeldAmong(e, user, ids[1..]);
      if user in e.markets[ids[0]].shares then
        forall id | id in rest
          ensures ids[0] < id
        {
          var j :| 1 <= j < |ids| && ids[j] == id;
        }
        PrependIncreasing(ids[0], rest);
        [ids[0]] + rest
      else
        rest
  }

  function MarketsHeld(e: Economy, user: UserId): (r: seq<MarketId>)
    ensures Increasing(r)
    ensures forall id :: id in r <==> id in e.markets && user in e.markets[id].shares
  {
    MarketsHeldAmong(e, user, AscendingIds(e.markets.Keys))
  }

  /** A user's cash and, market by market in id order, the question and their position. */
  function PortfolioOf(e: Economy, user: UserId): (p: Portfolio)
    ensures p.cash == BalanceOf(e, user)
    ensures |p.marketPositions| == |MarketsHeld(e, user)|
    ensures forall i :: 0 <= i < |p.marketPositions| ==>
      var id := MarketsHeld(e, user)[i];
      id in e.markets && user in e.markets[id].shares &&
      p.marketPositions[i] == (e.markets[id].question, e.markets[id].shares[user])
  {
    var ids := MarketsHeld(e, user);
    Portfolio(
      BalanceOf(e, user),
      seq(|ids|, i requires 0 <= i < |ids| =>
        assert ids[i] in ids;
        (e.markets[ids[i]].question, e.markets[ids[i]].shares[user])))
  }

  /** The infos of the markets `ids`, in the order given. */
  function InfosOf(e: Economy, ids: seq<MarketId>): (r: seq<MarketInfo>)
    requires forall i :: 0 <= i < |ids| ==> ids[i] in e.markets
    ensures |r| == |ids|
    ensures forall i :: 0 <= i < |r| ==> r[i] == Info(e.markets[ids[i]], ids[i])
  {
    seq(|ids|, i requires 0 <= i < |ids| => Info(e.markets[ids[i]], ids[i]))
  }

  /** Every live market's info, in increasing id order. */
  function ListMarkets(e: Economy): (r: seq<MarketInfo>)
    ensures forall i, j :: 0 <= i < j < |r| ==> r[i].marketId < r[j].marketId
    ensures forall i :: 0 <= i < |r| ==>
      r[i].marketId in e.markets && r[i] == Info(e.markets[r[i].marketId], r[i].marketId)
    ensures forall id :: id in e.markets ==> exists i :: 0 <= i < |r| && r[i].marketId == id
  {
    var ids := AscendingIds(e.markets.Keys);
    assert forall i :: 0 <= i < |ids| ==> ids[i] in e.markets by {
      forall i | 0 <= i < |ids| ensures ids[i] in e.markets {
        assert ids[i] in ids;
      }
    }
    var r := InfosOf(e, ids);
    assert forall i :: 0 <= i < |r| ==> r[i].marketId == ids[i];
    forall id | id in e.markets
      ensures exists i :: 0 <= i < |r| && r[i].marketId == id
    {
      var i :| 0 <= i < |ids| && ids[i] == id;
      assert r[i].marketId == id;
    }
    r
  }

  /** Opens a market under the next id, paid for by its creator. */
  function CreateMarket(e: Economy, caller: UserId, question: string, description: string)
    : (r: Result<(Economy, MarketInfo)>)
    ensures r.Err? <==> e.nextMarketId == U64_MAX || BalanceOf(e, caller) < MARKET_CREATION_COST
    ensures r.Err? ==> r.error == if e.nextMarketId == U64_MAX then IdOverflow else InsufficientFunds
    ensures r.Ok? ==>
      var (e', info) := r.value;
      var id := e.nextMarketId;
      && info == Info(NewMarket(caller, question, description), id)
      && info.marketId == id && info.probability == 50 && info.shares == map[]
      && e'.nextMarketId == id + 1
      && e'.markets == e.markets[id := NewMarket(caller, question, description)]
      && e'.userMoney.Keys == e.userMoney.Keys + {caller}
      && BalanceOf(e', caller) == BalanceOf(e, caller) - MARKET_CREATION_COST
      && forall u :: u != caller ==> BalanceOf(e', u) == BalanceOf(e, u)
  {
    if e.nextMarketId == U64_MAX then Err(IdOverflow)
    else
      var id := e.nextMarketId;
      var e1 := Credit(e.(nextMarketId := id + 1), caller, -MARKET_CREATION_COST);
      if BalanceOf(e1, caller) < 0.0 then Err(InsufficientFunds)
      else
        var market := NewMarket(caller, question, description);
        Ok((e1.(markets := e1.markets[id := market]), Info(market, id)))
  }

  /** Buying shares of `kind` would clash with the position the user already holds. */
  predicate Conflicts(m: Market, user: UserId, kind: ShareKind) {
    user in m.shares && m.shares[user].kind != kind
  }

  /** Spends `price` on shares of `kind`, priced by the market maker. */
  function Buy(e: Economy, caller: UserId, id: MarketId, price: Balance, kind: ShareKind)
    : (r: Result<(Economy, Balance)>)
    requires id in e.markets ==> Live(e.markets[id])
    ensures r.Err? <==>
      price < 0.0 || BalanceOf(e, caller) < price || id !in e.markets || Conflicts(e.markets[id], caller, kind)
    ensures r.Err? ==>
      r.error == (if price < 0.0 then NegativeAmount
                  else if BalanceOf(e, caller) < price then InsufficientFunds
                  else if id !in e.markets then MarketNotFound
                  else ConflictingPosition)
    ensures r.Ok? ==>
      var (e', bought) := r.value;
      var m := e.markets[id];
      id in e'.markets &&
      var m' := e'.markets[id];
      && e'.nextMarketId == e.nextMarketId
      && e'.markets == e.markets[id := m']
      && e'.userMoney.Keys == e.userMoney.Keys + {caller}
      && BalanceOf(e', caller) == BalanceOf(e, caller) - price
      && (forall u :: u != caller ==> BalanceOf(e', u) == BalanceOf(e, u))
      && m'.creator == m.creator && m'.question == m.question && m'.description == m.description
      && m'.shares == m.shares[caller := UserShareBalance(kind, Held(m.shares, caller, kind) + bought)]
      && BuyTrade(m.y, m.n, price, kind) == BuyQuote(m'.y, m'.n, bought)
  {
    if price < 0.0 then Err(NegativeAmount)
    else
      var e1 := Credit(e, caller, -price);
      if BalanceOf(e1, caller) < 0.0 then Err(InsufficientFunds)
      else if id !in e1.markets then Err(MarketNotFound)
      else
        var m := e1.markets[id];
        var quote := BuyTrade(m.y, m.n, price, kind);
        if kind == No && quote.n < 0.0 then Err(ReserveUnderflow(No))
        else if kind == Yes && quote.y < 0.0 then Err(ReserveUnderflow(Yes))
        else
          var position :=
            if caller !in m.shares then
              UserShareBalance(kind, quote.shares)
            else
              m.shares[caller].(quantity := m.shares[caller].quantity + quote.shares);
          if caller in m.shares && m.shares[caller].kind != kind then Err(ConflictingPosition)
          else
            var m' := m.(y := quote.y, n := quote.n, shares := m.shares[caller := position]);
            Ok((e1.(markets := e1.markets[id := m']), quote.shares))
  }

  /** Sells all of the caller's position (`None`) or `Some(q)` shares of it
      back to the market maker. */
  function Sell(e: Economy, caller: UserId, id: MarketId, amount: Option<Balance>, sqrt: real -> real)
    : (r: Result<(Economy, Balance, Balance)>)
    requires IsSqrt(sqrt)
    requires id in e.markets ==> Live(e.markets[id])
    ensures r.Err? <==>
      || id !in e.markets
      || caller !in e.markets[id].shares
      || (amount.Some? && (amount.value < 0.0 || amount.value > e.markets[id].shares[caller].quantity))
    ensures r.Err? ==>
      r.error == (if id !in e.markets then MarketNotFound
                  else if caller !in e.markets[id].shares then NoSharesToSell
                  else if amount.value < 0.0 then NegativeAmount
                  else SellingMoreThanHeld)
    ensures r.Ok? ==>
      var (e', sold, price) := r.value;
      var m := e.markets[id];
      var position := m.shares[caller];
      id in e'.markets &&
      var m' := e'.markets[id];
      && sold == (if amount.None? then position.quantity else amount.value)
      && e'.nextMarketId == e.nextMarketId
      && e'.markets == e.markets[id := m']
      && e'.userMoney.Keys == e.userMoney.Keys + {caller}
      && BalanceOf(e', caller) == BalanceOf(e, caller) + price
      && (forall u :: u != caller ==> BalanceOf(e', u) == BalanceOf(e, u))
      && m'.creator == m.creator && m'.question == m.question && m'.description == m.description
      && m'.shares == (if amount.None? then m.shares - {caller}
                       else m.shares[caller := UserShareBalance(position.kind, position.quantity - sold)])
      && SellTrade(m.y, m.n, sold, position.kind, sqrt) == SaleQuote(m'.y, m'.n, price)
  {
    if id !in e.markets then Err(MarketNotFound)
    else
      var m := e.markets[id];
      if caller !in m.shares then Err(NoSharesToSell)
      else
        var position := m.shares[caller];
        var sold :=
          match amount
          case None => position.quantity
          case Some(q) => q;
        var shares :=
          match amount
          case None => m.shares - {caller}
          case Some(q) => m.shares[caller := position.(quantity := position.quantity - q)];
        if amount.Some? && sold < 0.0 then Err(NegativeAmount)
        else if amount.Some? && position.quantity - sold < 0.0 then Err(SellingMoreThanHeld)
        else
          var quote := SellTrade(m.y, m.n, sold, position.kind, sqrt);
          if quote.n < 0.0 then Err(ReserveUnderflow(No))
          else if quote.y < 0.0 then Err(ReserveUnderflow(Yes))
          else
            var m' := m.(y := quote.y, n := quote.n, shares := shares);
            Ok((Credit(e.(markets := e.markets[id := m']), caller, quote.price), sold, quote.price))
  }

  /** Moves `amount` from the caller to the recipient. */
  function Tip(e: Economy, caller: UserId, recipient: UserId, amount: Balance): (r: Result<Economy>)
    ensures r.Err? <==> amount < 0.0 || BalanceOf(e, caller) < amount
    ensures r.Err? ==> r.error == if amount < 0.0 then NegativeAmount else InsufficientFunds
    ensures r.Ok? ==>
      && r.value.nextMarketId == e.nextMarketId && r.value.markets == e.markets
      && r.value.userMoney.Keys == e.userMoney.Keys + {caller, recipient}
      && forall u :: BalanceOf(r.value, u) ==
           BalanceOf(e, u) - (if u == caller then amount else 0.0) + (if u == recipient then amount else 0.0)
  {
    if amount < 0.0 then Err(NegativeAmount)
    else
      var e1 := Credit(e, caller, -amount);
      if BalanceOf(e1, caller) < 0.0 then Err(InsufficientFunds)
      else Ok(Credit(e1, recipient, amount))
  }

  /** What every market of a reachable economy satisfies. */
  ghost predicate MarketValid(m: Market) {
    && Live(m)
    && (forall u :: u in m.shares ==> m.shares[u].quantity >= 0.0)
    && Collateralized(m)
  }

  /** The invariant of every reachable economy: nobody's money is negative,
      and every live market is valid and has an id below the counter, so the
      counter never hands out an id that is or was in use. */
  ghost predicate Valid(e: Economy) {
    && (forall u :: u in e.userMoney ==> e.userMoney[u] >= 0.0)
    && (forall id :: id in e.markets ==> id < e.nextMarketId && MarketValid(e.markets[id]))
  }

  lemma ValidBalances(e: Economy)
    requires Valid(e)
    ensures forall u :: BalanceOf(e, u) >= 0.0
  {
  }

  /** The holders of the winning kind: each gets a balance entry, even for a zero position. */
  function Winners(m: Market, outcome: ShareKind): set<UserId> {
    set u | u in m.shares && m.shares[u].kind == outcome
  }

  /** Closes a market: its creator settles it, each holder of the winning kind
      is paid one unit per share, the creator also takes back the winning-side
      reserve, and the market leaves the economy. */
  method ResolveMarket(e: Economy, caller: UserId, id: MarketId, outcome: ShareKind)
    returns (r: Result<(Economy, MarketInfo)>)
    ensures r.Err? <==> id !in e.markets || e.markets[id].creator != caller
    ensures r.Err? ==> r.error == if id !in e.markets then MarketNotFound else Unauthorized
    ensures r.Ok? ==>
      var (e', info) := r.value;
      var m := e.markets[id];
      && info == Info(m, id)
      && e'.nextMarketId == e.nextMarketId
      && e'.markets == e.markets - {id}
      && e'.userMoney.Keys == e.userMoney.Keys + Winners(m, outcome) + {caller}
      && (forall u :: BalanceOf(e', u) ==
           BalanceOf(e, u) + Held(m.shares, u, outcome) + (if u == caller then Reserve(m, outcome) else 0.0))
      && (Valid(e) ==> Valid(e'))
  {
    if id !in e.markets {
      return Err(MarketNotFound);
    }
    var market := e.markets[id];
    if caller != market.creator {
      return Err(Unauthorized);
    }
    var newEconomy := e;
    var pending := market.shares.Keys;
    while pending != {}
      invariant pending <= market.shares.Keys
      invariant newEconomy.nextMarketId == e.nextMarketId && newEconomy.markets == e.markets
      invariant newEconomy.userMoney.Keys == e.userMoney.Keys + (Winners(market, outcome) - pending)
      invariant forall u ::
        BalanceOf(newEconomy, u) == BalanceOf(e, u) + (if u in pending then 0.0 else Held(market.shares, u, outcome))
      decreases pending
    {
      var user :| user in pending;
      var holding := market.shares[user];
      if holding.kind == outcome {
        newEconomy := Credit(newEconomy, user, holding.quantity);
      }
      pending := pending - {user};
    }
    newEconomy := Credit(newEconomy, caller, Reserve(market, outcome));
    newEconomy := newEconomy.(markets := newEconomy.markets - {id});
    if Valid(e) {
      ValidBalances(e);
      forall u | u in newEconomy.userMoney
        ensures newEconomy.userMoney[u] >= 0.0
      {
        assert MarketValid(market);
        assert Held(market.shares, u, outcome) >= 0.0;
        assert BalanceOf(newEconomy, u) == newEconomy.userMoney[u];
      }
    }
    return Ok((newEconomy, Info(market, id)));
  }
}
