/** A single prediction market: its automated market maker pool (the Yes
    reserve `y` and the No reserve `n`), its metadata and the one position
    each user holds in it. Amounts are `f64` in the bot and exact reals here. */
module Markets {

  /** Users are Discord ids; the engine only ever compares them for equality. */
  type UserId = nat

  /** Money and share quantities (both `f64` in the bot). */
  type Balance = real

  const U64_MAX: int := 0xFFFF_FFFF_FFFF_FFFF
  type u64 = x: int | 0 <= x <= U64_MAX
  type u8 = x: int | 0 <= x < 256

  type MarketId = u64

  /** What creating a market costs; it also seeds each reserve. */
  const MARKET_CREATION_COST: Balance := 50.0

  datatype ShareKind = Yes | No

  /** A user's position in one market: a single kind, never both. */
  datatype UserShareBalance = UserShareBalance(kind: ShareKind, quantity: Balance)

  datatype Market = Market(
    creator: UserId,
    question: string,
    description: string,
    y: Balance,
    n: Balance,
    shares: map<UserId, UserShareBalance>)

  /** The read-only view of a market handed to the front end. */
  datatype MarketInfo = MarketInfo(
    marketId: MarketId,
    question: string,
    probability: u8,
    creator: UserId,
    description: string,
    shares: map<UserId, UserShareBalance>)

  /** Both reserves strictly positive: the state every live market is kept in. */
  predicate Live(m: Market) {
    m.y > 0.0 && m.n > 0.0
  }

  /** The reserve that pays the creator when the market resolves to `kind`. */
  function Reserve(m: Market, kind: ShareKind): Balance {
    match kind
    case Yes => m.y
    case No => m.n
  }

  /** A fresh market: equal reserves funded by the creation cost, no positions. */
  function NewMarket(creator: UserId, question: string, description: string): (m: Market)
    ensures m.y == MARKET_CREATION_COST && m.n == MARKET_CREATION_COST
    ensures Live(m) && Probability(m) == 50
    ensures m.shares == map[]
    ensures m.creator == creator && m.question == question && m.description == description
  {
    var m := Market(creator, question, description, MARKET_CREATION_COST, MARKET_CREATION_COST, map[]);
    assert m.n / (m.y + m.n) * 100.0 == 50.0;
    m
  }

  /** Rust's float-to-`u8` cast: truncation toward zero, saturating at 0 and 255. */
  function CastU8(x: real): (r: u8)
    ensures 0.0 <= x < 255.0 ==> r as real <= x < r as real + 1.0
  {
    if x <= 0.0 then 0 else if x >= 255.0 then 255 else x.Floor
  }

  /** The implied chance of Yes as a whole percent, rounded down. A zero
      denominator is the float's infinity (255) or NaN/negative infinity (0). */
  function Probability(m: Market): (p: u8)
    ensures Live(m) ==> p <= 99
    ensures Live(m) ==> p as real <= 100.0 * m.n / (m.y + m.n) < p as real + 1.0
  {
    if m.y + m.n == 0.0 then
      (if m.n > 0.0 then 255 else 0)
    else
      var pct := m.n / (m.y + m.n) * 100.0;
      assert Live(m) ==> pct == 100.0 * m.n / (m.y + m.n) && 0.0 < pct < 100.0 by {
        if Live(m) {
          assert m.n / (m.y + m.n) < 1.0;
        }
      }
      CastU8(pct)
  }

  function Info(m: Market, id: MarketId): (info: MarketInfo)
    ensures info.marketId == id && info.creator == m.creator
    ensures info.question == m.question && info.description == m.description
    ensures info.shares == m.shares
    ensures Live(m) ==> info.probability <= 99
    ensures info.probability == Probability(m)
  {
    MarketInfo(id, m.question, Probability(m), m.creator, m.description, m.shares)
  }

  /** How many shares of `kind` user `u` holds (0 when the position is absent or of the other kind). */
  function Held(shares: map<UserId, UserShareBalance>, u: UserId, kind: ShareKind): Balance {
    if u in shares && shares[u].kind == kind then shares[u].quantity else 0.0
  }

  /** All shares of `kind` held by users: what the market owes them if it resolves to `kind`. */
  ghost function Outstanding(shares: map<UserId, UserShareBalance>, kind: ShareKind): Balance
    decreases shares.Keys
  {
    if shares == map[] then 0.0
    else
      var u :| u in shares;
      Held(shares, u, kind) + Outstanding(shares - {u}, kind)
  }

  /** Any one position can be split off the total, whichever user the definition picks first. */
  lemma {:induction false} OutstandingSplit(shares: map<UserId, UserShareBalance>, u: UserId, kind: ShareKind)
    requires u in shares
    ensures Outstanding(shares, kind) == Held(shares, u, kind) + Outstanding(shares - {u}, kind)
    decreases shares.Keys
  {
    var v :| v in shares && Outstanding(shares, kind) == Held(shares, v, kind) + Outstanding(shares - {v}, kind);
    if v != u {
      var rest := shares - {u} - {v};
      assert shares - {v} - {u} == rest;
      assert Held(shares - {v}, u, kind) == Held(shares, u, kind);
      assert Held(shares - {u}, v, kind) == Held(shares, v, kind);
      OutstandingSplit(shares - {v}, u, kind);
      OutstandingSplit(shares - {u}, v, kind);
    }
  }

  /** Replacing (or adding) one user's position changes the total by exactly that position. */
  lemma OutstandingUpdate(shares: map<UserId, UserShareBalance>, u: UserId, b: UserShareBalance, kind: ShareKind)
    ensures Outstanding(shares[u := b], kind) + Held(shares, u, kind)
         == Outstanding(shares, kind) + Held(map[u := b], u, kind)
  {
    OutstandingSplit(shares[u := b], u, kind);
    assert shares[u := b] - {u} == shares - {u};
    if u in shares {
      OutstandingSplit(shares, u, kind);
    } else {
      assert shares - {u} == shares;
    }
  }

  /** Removing one user's position lowers the total by exactly that position. */
  lemma OutstandingRemove(shares: map<UserId, UserShareBalance>, u: UserId, kind: ShareKind)
    ensures Outstanding(shares - {u}, kind) + Held(shares, u, kind) == Outstanding(shares, kind)
  {
    if u in shares {
      OutstandingSplit(shares, u, kind);
    } else {
      assert shares - {u} == shares;
    }
  }

  /** Whichever way the market resolves, the pool plus the winning positions
      add up to the same amount: every trade moves both sides equally. */
  ghost predicate Collateralized(m: Market) {
    m.y + Outstanding(m.shares, Yes) == m.n + Outstanding(m.shares, No)
  }
}
