/** The constant-product pricing rules of a market's automated market maker.
    A trade is priced so that the product of the two reserves is the same
    before and after it. */
module Amm {
  import opened Markets

  /** `sqrt` from the platform's float library, which the engine calls but
      which is not part of this model: a function returning the non-negative
      square root of every non-negative argument. */
  ghost predicate IsSqrt(sqrt: real -> real) {
    forall x {:trigger sqrt(x)} :: x >= 0.0 ==> sqrt(x) >= 0.0 && sqrt(x) * sqrt(x) == x
  }

  /** Reserves after a buy, and the shares it delivers to the buyer. */
  datatype BuyQuote = BuyQuote(y: Balance, n: Balance, shares: Balance)

  /** Reserves after a sale, and the money it pays the seller. */
  datatype SaleQuote = SaleQuote(y: Balance, n: Balance, price: Balance)

  /** The reserve product after withdrawing `x` from both reserves. */
  function Withdrawn(y: real, n: real, x: real): real {
    (y - x) * (n - x)
  }

  /** Buying with `m`: `m` goes into both reserves, then the buyer takes from the
      reserve of `kind` exactly what brings the product back to `y * n`. */
  function BuyTrade(y: Balance, n: Balance, m: Balance, kind: ShareKind): (q: BuyQuote)
    requires y > 0.0 && n > 0.0 && m >= 0.0
    ensures q.y * q.n == y * n
    ensures kind == Yes ==> q.n == n + m && q.y == y + m - q.shares
    ensures kind == No ==> q.y == y + m && q.n == n + m - q.shares
    ensures q.y > 0.0 && q.n > 0.0
    ensures q.shares >= m
  {
    var k := y * n;
    var n1 := n + m;
    var y1 := y + m;
    match kind
    case No =>
      var bought := (n1 * y1 - k) / y1;
      assert y1 * (n1 - bought) == y * n && n1 - bought > 0.0 && bought >= m by {
        TakeFromOneSide(y, n, m, y1, n1, bought);
      }
      BuyQuote(y1, n1 - bought, bought)
    case Yes =>
      var bought := (n1 * y1 - k) / n1;
      assert (y1 - bought) * n1 == y * n && y1 - bought > 0.0 && bought >= m by {
        TakeFromOneSide(n, y, m, n1, y1, bought);
      }
      BuyQuote(y1 - bought, n1, bought)
  }

  /** After `m` is added to reserves `a` and `b` (giving `a1` and `b1`), taking
      `bought` from the second restores the old product, leaves that reserve
      positive and gives at least `m`. */
  lemma TakeFromOneSide(a: real, b: real, m: real, a1: real, b1: real, bought: real)
    requires a > 0.0 && b > 0.0 && m >= 0.0
    requires a1 == a + m && b1 == b + m && bought == (b1 * a1 - a * b) / a1
    ensures a1 * (b1 - bought) == a * b
    ensures b1 - bought > 0.0
    ensures bought >= m
  {
    var k := a * b;
    var left := k / a1;
    assert bought == b1 - left;
    assert a1 * left == k;
    assert left > 0.0;
    assert a1 * b == k + m * b;
    assert left <= (a1 * b) / a1 == b;
  }

  /** The reserves once the sold shares are folded back into the reserve of their kind. */
  function Fold(y: Balance, n: Balance, sold: Balance, kind: ShareKind): (Balance, Balance) {
    match kind
    case Yes => (y + sold, n)
    case No => (y, n + sold)
  }

  /** The quantity under the square root in the sale price, `(y + n)^2 + 4 (k - n y)`. */
  function Radicand(y: real, n: real, k: real): (r: real)
    ensures r == (y - n) * (y - n) + 4.0 * k
    ensures k >= 0.0 ==> r >= 0.0
  {
    (y + n) * (y + n) + 4.0 * (k - n * y)
  }

  lemma SquareMonotone(a: real, b: real)
    requires 0.0 <= a <= b
    ensures a * a <= b * b
  {
    assert a * a <= a * b <= b * b;
  }

  /** A non-negative number whose square exceeds `d * d` exceeds `d` and `-d`. */
  lemma RootExceeds(r: real, d: real)
    requires r >= 0.0 && r * r > d * d
    ensures r > d && r > -d
  {
    if r <= d { SquareMonotone(r, d); }
    if r <= -d { SquareMonotone(r, -d); }
  }

  lemma ZeroProduct(a: real, b: real)
    requires a * b == 0.0
    ensures a == 0.0 || b == 0.0
  {
  }

  /** The two roots of `(y - x) (n - x) == k` are `(y + n -/+ root) / 2`. */
  lemma Roots(y: real, n: real, k: real, root: real, x: real)
    requires root >= 0.0 && root * root == Radicand(y, n, k)
    ensures var p := (y + n - root) / 2.0;
      Withdrawn(y, n, x) - k == (x - p) * (x - (y + n + root) / 2.0)
  {
    var s := y + n;
    var p := (s - root) / 2.0;
    var p2 := (s + root) / 2.0;
    assert p + p2 == s;
    assert p * p2 == (s * s - root * root) / 4.0;
    assert p * p2 == n * y - k;
    calc {
      (x - p) * (x - p2);
      x * x - (p + p2) * x + p * p2;
      x * x - s * x + n * y - k;
      Withdrawn(y, n, x) - k;
    }
  }

  /** Selling `sold` shares of `kind`: they are folded into their reserve, then the
      seller withdraws the same amount `price` from both reserves, the smaller
      amount that brings the product back to its value before the sale. */
  function SellTrade(y: Balance, n: Balance, sold: Balance, kind: ShareKind, sqrt: real -> real): (q: SaleQuote)
    requires IsSqrt(sqrt)
    requires y > 0.0 && n > 0.0
    ensures var (y1, n1) := Fold(y, n, sold, kind);
      && q.y == y1 - q.price && q.n == n1 - q.price
      && Withdrawn(y1, n1, q.price) == y * n
      && forall x {:trigger Withdrawn(y1, n1, x)} :: Withdrawn(y1, n1, x) == y * n ==> q.price <= x
    ensures q.y * q.n == y * n
    ensures q.y > 0.0 && q.n > 0.0
    ensures sold >= 0.0 ==> q.price >= 0.0
  {
    var k := y * n;
    var (y1, n1) := Fold(y, n, sold, kind);
    var root := sqrt(Radicand(y1, n1, k));
    var price := (y1 + n1 - root) / 2.0;
    SaleFacts(y, n, sold, kind, root);
    SaleQuote(y1 - price, n1 - price, price)
  }

  lemma SaleFacts(y: Balance, n: Balance, sold: Balance, kind: ShareKind, root: real)
    requires y > 0.0 && n > 0.0
    requires var (y1, n1) := Fold(y, n, sold, kind);
      root >= 0.0 && root * root == Radicand(y1, n1, y * n)
    ensures var (y1, n1) := Fold(y, n, sold, kind);
      var price := (y1 + n1 - root) / 2.0;
      && Withdrawn(y1, n1, price) == y * n
      && (forall x {:trigger Withdrawn(y1, n1, x)} :: Withdrawn(y1, n1, x) == y * n ==> price <= x)
      && y1 - price > 0.0 && n1 - price > 0.0
      && (sold >= 0.0 ==> price >= 0.0)
  {
    var (y1, n1) := Fold(y, n, sold, kind);
    assert y * n > 0.0;
    SmallerRoot(y1, n1, y * n, root);
    if sold >= 0.0 {
      assert y * n <= n1 * y1 by {
        match kind
        case Yes => assert n1 * y1 == y * n + sold * n;
        case No => assert n1 * y1 == y * n + sold * y;
      }
      SmallerRootNonNegative(y1, n1, y * n, root);
    }
  }

  /** With a positive target product `k`, the smaller root restores `k`, is the
      least amount that does, and leaves both reserves positive. */
  lemma SmallerRoot(y1: real, n1: real, k: real, root: real)
    requires k > 0.0 && root >= 0.0 && root * root == Radicand(y1, n1, k)
    ensures var price := (y1 + n1 - root) / 2.0;
      && Withdrawn(y1, n1, price) == k
      && (forall x {:trigger Withdrawn(y1, n1, x)} :: Withdrawn(y1, n1, x) == k ==> price <= x)
      && y1 - price > 0.0 && n1 - price > 0.0
  {
    var price := (y1 + n1 - root) / 2.0;
    var other := (y1 + n1 + root) / 2.0;
    Roots(y1, n1, k, root, price);
    forall x | Withdrawn(y1, n1, x) == k
      ensures price <= x
    {
      Roots(y1, n1, k, root, x);
      ZeroProduct(x - price, x - other);
    }
    RootExceeds(root, y1 - n1);
    assert y1 - price == (y1 - n1 + root) / 2.0;
    assert n1 - price == (n1 - y1 + root) / 2.0;
  }

  /** When the target product is at most the current one, the smaller root is not negative. */
  lemma SmallerRootNonNegative(y1: real, n1: real, k: real, root: real)
    requires 0.0 <= k <= n1 * y1 && root >= 0.0 && root * root == Radicand(y1, n1, k)
    requires y1 + n1 >= 0.0
    ensures (y1 + n1 - root) / 2.0 >= 0.0
  {
    var s := y1 + n1;
    assert root * root <= s * s;
    assert (s - root) * (s + root) == s * s - root * root;
    if s + root > 0.0 {
      assert s - root == (s * s - root * root) / (s + root);
    }
  }
}
