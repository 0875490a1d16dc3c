/** Properties of the economy that relate several operations or hold across
    every reachable state: each operation keeps the invariant `Valid`, a buy
    undone by a sale leaves no trace, and an emptied position still counts. */
module EconomyProperties {
  import opened Markets
  import opened Amm
  import opened PredictionMarket

  lemma NewEconomyValid()
    ensures Valid(NewEconomy())
  {
  }

  lemma NewMarketValid(creator: UserId, question: string, description: string)
    ensures MarketValid(NewMarket(creator, question, description))
  {
    var m := NewMarket(creator, question, description);
    assert Outstanding(m.shares, Yes) == 0.0 && Outstanding(m.shares, No) == 0.0;
  }

  /** Creating a market keeps the invariant, and the id it takes was free. */
  lemma CreateMarketPreservesValid(e: Economy, caller: UserId, question: string, description: string)
    requires Valid(e)
    ensures var r := CreateMarket(e, caller, question, description);
      r.Ok? ==> e.nextMarketId !in e.markets && Valid(r.value.0)
  {
    var r := CreateMarket(e, caller, question, description);
    if r.Ok? {
      var e' := r.value.0;
      NewMarketValid(caller, question, description);
      forall u | u in e'.userMoney
        ensures e'.userMoney[u] >= 0.0
      {
        assert BalanceOf(e', u) == e'.userMoney[u];
        if u != caller {
          assert BalanceOf(e, u) == e.userMoney[u] || BalanceOf(e, u) == USER_START_BALANCE;
        }
      }
    }
  }

  /** Tipping keeps the invariant. */
  lemma TipPreservesValid(e: Economy, caller: UserId, recipient: UserId, amount: Balance)
    requires Valid(e)
    ensures var r := Tip(e, caller, recipient, amount);
      r.Ok? ==> Valid(r.value)
  {
    var r := Tip(e, caller, recipient, amount);
    if r.Ok? {
      ValidBalances(e);
      forall u | u in r.value.userMoney
        ensures r.value.userMoney[u] >= 0.0
      {
        assert BalanceOf(r.value, u) == r.value.userMoney[u];
      }
    }
  }

  /** A buy moves the outstanding shares of its kind and that kind's reserve by
      the same amount in opposite directions, so the market stays collateralized. */
  lemma BuyKeepsMarketValid(m: Market, m': Market, caller: UserId, price: Balance, kind: ShareKind, bought: Balance)
    requires MarketValid(m) && price >= 0.0 && !Conflicts(m, caller, kind)
    requires m'.shares == m.shares[caller := UserShareBalance(kind, Held(m.shares, caller, kind) + bought)]
    requires BuyTrade(m.y, m.n, price, kind) == BuyQuote(m'.y, m'.n, bought)
    ensures MarketValid(m')
  {
    var other := if kind == Yes then No else Yes;
    var position := UserShareBalance(kind, Held(m.shares, caller, kind) + bought);
    OutstandingUpdate(m.shares, caller, position, kind);
    OutstandingUpdate(m.shares, caller, position, other);
    assert Held(m.shares, caller, other) == 0.0;
    assert Outstanding(m'.shares, kind) == Outstanding(m.shares, kind) + bought;
    assert Outstanding(m'.shares, other) == Outstanding(m.shares, other);
    assert Held(m.shares, caller, kind) >= 0.0;
  }

  /** Buying keeps the invariant. */
  lemma BuyPreservesValid(e: Economy, caller: UserId, id: MarketId, price: Balance, kind: ShareKind)
    requires Valid(e)
    ensures var r := Buy(e, caller, id, price, kind);
      r.Ok? ==> Valid(r.value.0)
  {
    var r := Buy(e, caller, id, price, kind);
    if r.Ok? {
      var (e', bought) := r.value;
      BuyKeepsMarketValid(e.markets[id], e'.markets[id], caller, price, kind, bought);
      ValidBalances(e);
      forall u | u in e'.userMoney
        ensures e'.userMoney[u] >= 0.0
      {
        assert BalanceOf(e', u) == e'.userMoney[u];
      }
    }
  }

  /** A sale takes the sold shares off the outstanding total and puts them back
      into their reserve, then pays the same price out of both reserves. */
  lemma SellKeepsMarketValid(m: Market, m': Market, caller: UserId, amount: Option<Balance>, sold: Balance, price: Balance, sqrt: real -> real)
    requires IsSqrt(sqrt)
    requires MarketValid(m) && caller in m.shares
    requires sold == (if amount.None? then m.shares[caller].quantity else amount.value)
    requires 0.0 <= sold <= m.shares[caller].quantity
    requires m'.shares == (if amount.None? then m.shares - {caller}
                           else m.shares[caller := UserShareBalance(m.shares[caller].kind, m.shares[caller].quantity - sold)])
    requires SellTrade(m.y, m.n, sold, m.shares[caller].kind, sqrt) == SaleQuote(m'.y, m'.n, price)
    ensures MarketValid(m')
  {
    var position := m.shares[caller];
    var kind := position.kind;
    var other := if kind == Yes then No else Yes;
    assert Held(m.shares, caller, kind) == position.quantity;
    assert Held(m.shares, caller, other) == 0.0;
    if amount.None? {
      OutstandingRemove(m.shares, caller, kind);
      OutstandingRemove(m.shares, caller, other);
    } else {
      var position' := UserShareBalance(kind, position.quantity - sold);
      OutstandingUpdate(m.shares, caller, position', kind);
      OutstandingUpdate(m.shares, caller, position', other);
    }
    assert Outstanding(m'.shares, kind) == Outstanding(m.shares, kind) - sold;
    assert Outstanding(m'.shares, other) == Outstanding(m.shares, other);
  }

  /** Selling keeps the invariant. */
  lemma SellPreservesValid(e: Economy, caller: UserId, id: MarketId, amount: Option<Balance>, sqrt: real -> real)
    requires IsSqrt(sqrt)
    requires Valid(e)
    ensures var r := Sell(e, caller, id, amount, sqrt);
      r.Ok? ==> Valid(r.value.0)
  {
    var r := Sell(e, caller, id, amount, sqrt);
    if r.Ok? {
      var (e', sold, price) := r.value;
      var m := e.markets[id];
      assert m.shares[caller].quantity >= 0.0;
      SellKeepsMarketValid(m, e'.markets[id], caller, amount, sold, price, sqrt);
      ValidBalances(e);
      forall u | u in e'.userMoney
        ensures e'.userMoney[u] >= 0.0
      {
        assert BalanceOf(e', u) == e'.userMoney[u];
      }
    }
  }

  /** How the reserve product changes between two withdrawals of equal amounts. */
  lemma WithdrawnDifference(a: real, b: real, x: real, p: real)
    ensures Withdrawn(a, b, x) - Withdrawn(a, b, p) == (x - p) * (x + p - a - b)
  {
  }

  /** Below the midpoint `(a + b) / 2`, at most one amount restores a given product. */
  lemma OneRootBelowMidpoint(a: real, b: real, k: real, p: real, x: real)
    requires Withdrawn(a, b, p) == k && Withdrawn(a, b, x) == k
    requires p <= x && 2.0 * x < a + b
    ensures p == x
  {
    WithdrawnDifference(a, b, x, p);
    ZeroProduct(x - p, x + p - a - b);
  }

  /** The smallest amount restoring the product `y * n` to reserves `y + price`
      and `n + price` is `price` itself. */
  lemma RoundTripRoot(y: real, n: real, price: real, p: real)
    requires y > 0.0 && n > 0.0 && price >= 0.0
    requires Withdrawn(y + price, n + price, p) == y * n
    requires forall x {:trigger Withdrawn(y + price, n + price, x)} ::
      Withdrawn(y + price, n + price, x) == y * n ==> p <= x
    ensures p == price
  {
    assert Withdrawn(y + price, n + price, price) == y * n;
    OneRootBelowMidpoint(y + price, n + price, y * n, p, price);
  }

  /** On the pool alone: selling what a buy delivered withdraws exactly the
      money the buy put in and restores both reserves. */
  lemma BuyThenSellPricing(y: Balance, n: Balance, price: Balance, kind: ShareKind, sqrt: real -> real)
    requires IsSqrt(sqrt)
    requires y > 0.0 && n > 0.0 && price >= 0.0
    ensures var b := BuyTrade(y, n, price, kind);
      SellTrade(b.y, b.n, b.shares, kind, sqrt) == SaleQuote(y, n, price)
  {
    var b := BuyTrade(y, n, price, kind);
    assert Fold(b.y, b.n, b.shares, kind) == (y + price, n + price) && b.y * b.n == y * n by {
      BoughtSharesFoldBack(y, n, price, kind);
    }
    var s := SellTrade(b.y, b.n, b.shares, kind, sqrt);
    assert s.price == price by {
      RoundTripRoot(y, n, price, s.price);
    }
  }

  /** Folding the bought shares back in gives the reserves with `price` added to both. */
  lemma BoughtSharesFoldBack(y: Balance, n: Balance, price: Balance, kind: ShareKind)
    requires y > 0.0 && n > 0.0 && price >= 0.0
    ensures var b := BuyTrade(y, n, price, kind);
      Fold(b.y, b.n, b.shares, kind) == (y + price, n + price) && b.y * b.n == y * n
  {
  }

  /** Buying with `price` and at once selling everything bought gives back
      exactly `price` and leaves the market and every balance as they were:
      there is neither profit nor loss in an immediate round trip. */
  lemma BuyThenSellAll(e: Economy, caller: UserId, id: MarketId, price: Balance, kind: ShareKind, sqrt: real -> real)
    requires IsSqrt(sqrt)
    requires id in e.markets && Live(e.markets[id]) && caller !in e.markets[id].shares
    requires Buy(e, caller, id, price, kind).Ok?
    ensures var (e1, bought) := Buy(e, caller, id, price, kind).value;
      id in e1.markets && Live(e1.markets[id]) &&
      var s := Sell(e1, caller, id, None, sqrt);
      && s.Ok?
      && s.value.1 == bought
      && s.value.2 == price
      && s.value.0.markets == e.markets
      && s.value.0.nextMarketId == e.nextMarketId
      && forall u :: BalanceOf(s.value.0, u) == BalanceOf(e, u)
  {
    var (e1, bought) := Buy(e, caller, id, price, kind).value;
    var m, m1 := e.markets[id], e1.markets[id];
    assert m1.shares == m.shares[caller := UserShareBalance(kind, bought)];
    BuyThenSellPricing(m.y, m.n, price, kind, sqrt);
    var (e2, sold, salePrice) := Sell(e1, caller, id, None, sqrt).value;
    var m2 := e2.markets[id];
    assert m2.shares == m.shares;
    assert m2 == m;
    assert e2.markets == e.markets;
  }

  /** Selling a whole position as an explicit quantity keeps the emptied entry,
      and that zero position still blocks buying the other kind. */
  lemma EmptiedPositionStillBlocks(e: Economy, caller: UserId, id: MarketId, sqrt: real -> real, price: Balance)
    requires IsSqrt(sqrt)
    requires id in e.markets && Live(e.markets[id])
    requires caller in e.markets[id].shares && e.markets[id].shares[caller].quantity >= 0.0
    ensures var position := e.markets[id].shares[caller];
      var s := Sell(e, caller, id, Some(position.quantity), sqrt);
      && s.Ok?
      && id in s.value.0.markets
      && s.value.0.markets[id].shares[caller] == UserShareBalance(position.kind, 0.0)
      && Buy(s.value.0, caller, id, price, if position.kind == Yes then No else Yes).Err?
  {
    var position := e.markets[id].shares[caller];
    var s := Sell(e, caller, id, Some(position.quantity), sqrt);
    assert Live(s.value.0.markets[id]);
  }

  /** A buy of Yes raises the implied chance of Yes. */
  lemma BuyYesRaisesOdds(y: Balance, n: Balance, price: Balance)
    requires y > 0.0 && n > 0.0 && price > 0.0
    ensures var q := BuyTrade(y, n, price, Yes);
      q.n / (q.y + q.n) > n / (y + n)
  {
    var q := BuyTrade(y, n, price, Yes);
    GrowingReserve(n, y, q.n, q.y);
    OddsOrder(q.y, q.n, y, n);
  }

  /** A buy of No lowers the implied chance of Yes. */
  lemma BuyNoLowersOdds(y: Balance, n: Balance, price: Balance)
    requires y > 0.0 && n > 0.0 && price > 0.0
    ensures var q := BuyTrade(y, n, price, No);
      q.n / (q.y + q.n) < n / (y + n)
  {
    var q := BuyTrade(y, n, price, No);
    GrowingReserve(y, n, q.y, q.n);
    OddsOrder(y, n, q.y, q.n);
  }

  /** With the product fixed, when one reserve grows from `a` to `a2` the other
      shrinks from `b` to `b2`. */
  lemma GrowingReserve(a: real, b: real, a2: real, b2: real)
    requires a > 0.0 && b > 0.0 && b2 > 0.0 && a2 > a
    requires b2 * a2 == b * a
    ensures b2 * a < b * a2
  {
    assert b2 < b by {
      if b2 >= b { SquareFree(b2, a2, b, a); }
    }
    assert b2 * a < b * a < b * a2;
  }

  lemma SquareFree(b2: real, a2: real, b: real, a: real)
    requires b2 >= b > 0.0 && a2 > a > 0.0
    ensures b2 * a2 > b * a
  {
    assert b2 * a2 >= b * a2 > b * a;
  }

  /** The pool with the smaller Yes-to-No ratio gives No the larger share. */
  lemma OddsOrder(y1: real, n1: real, y2: real, n2: real)
    requires y1 > 0.0 && n1 > 0.0 && y2 > 0.0 && n2 > 0.0
    requires y1 * n2 < y2 * n1
    ensures n1 / (y1 + n1) > n2 / (y2 + n2)
  {
    var s1, s2 := y1 + n1, y2 + n2;
    assert n1 * s2 > n2 * s1;
    assert n1 / s1 == (n1 * s2) / (s1 * s2);
    assert n2 / s2 == (n2 * s1) / (s1 * s2);
  }

  /** A worked example: on a fresh market, a newcomer spending 100 on Yes
      receives 400/3 shares, keeps 900 and moves the market to 90%. */
  lemma FirstTradeExample()
    ensures var created := CreateMarket(NewEconomy(), 1, "Will it rain?", "");
      && created.Ok?
      && created.value.1.marketId == 0
      && created.value.1.probability == 50
      && BalanceOf(created.value.0, 1) == 950.0
      && var bought := Buy(created.value.0, 2, 0, 100.0, Yes);
      && bought.Ok?
      && bought.value.1 == 400.0 / 3.0
      && BalanceOf(bought.value.0, 2) == 900.0
      && bought.value.0.markets[0].shares == map[2 := UserShareBalance(Yes, 400.0 / 3.0)]
      && MarketProbability(bought.value.0, 0) == Ok(90)
  {
    var e := CreateMarket(NewEconomy(), 1, "Will it rain?", "").value.0;
    var m := e.markets[0];
    assert m.y == 50.0 && m.n == 50.0;
    var q := BuyTrade(50.0, 50.0, 100.0, Yes);
    assert q.n == 150.0;
    assert q.y == 50.0 / 3.0;
    assert q.shares == 400.0 / 3.0;
    var m' := Buy(e, 2, 0, 100.0, Yes).value.0.markets[0];
    assert m'.y == 50.0 / 3.0 && m'.n == 150.0;
    assert m'.n / (m'.y + m'.n) * 100.0 == 90.0;
  }
}
