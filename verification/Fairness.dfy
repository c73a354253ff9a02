/** The Jain fairness index. */
module Fairness {

  function Times(a: real, b: real): real { a * b }

  function Square(x: real): real { x * x }

  lemma Product(a: real, b: real, z: real)
    requires z == a * b
    ensures (a > 0.0 && b > 0.0) || (a < 0.0 && b < 0.0) ==> z > 0.0
    ensures a == 0.0 ==> z == 0.0
  {}

  lemma SquareSign(x: real)
    ensures Square(x) >= 0.0 && (Square(x) == 0.0 <==> x == 0.0)
  {
    Product(x, x, Square(x));
  }

  function Sum(rates: seq<real>): real {
    if rates == [] then 0.0 else Sum(rates[..|rates| - 1]) + rates[|rates| - 1]
  }

  function SumSq(rates: seq<real>): real {
    if rates == [] then 0.0 else SumSq(rates[..|rates| - 1]) + Square(rates[|rates| - 1])
  }

  lemma {:induction false} SumSqSign(rates: seq<real>)
    ensures SumSq(rates) >= 0.0
    ensures SumSq(rates) == 0.0 <==> forall i | 0 <= i < |rates| :: rates[i] == 0.0
  {
    hide Square;
    if rates != [] {
      var n := |rates| - 1;
      SumSqSign(rates[..n]);
      SquareSign(rates[n]);
      assert forall i | 0 <= i < n :: rates[..n][i] == rates[i];
    }
  }

  function Ratio(s2: real, n: real, q: real): real
    requires n > 0.0 && q > 0.0
  {
    Product(n, q, n * q);
    s2 / (n * q)
  }

  function Index(rates: seq<real>): real {
    if SumSq(rates) == 0.0 then 1.0
    else SumSqSign(rates); Ratio(Square(Sum(rates)), |rates| as real, SumSq(rates))
  }

  /** Accumulates both sums in one pass. */
  method Jain(rates: seq<real>) returns (index: real)
    ensures index == Index(rates)
  {
    var sum, sumsq := 0.0, 0.0;
    for i := 0 to |rates|
      invariant sum == Sum(rates[..i]) && sumsq == SumSq(rates[..i])
    {
      assert rates[..i + 1][..i] == rates[..i];
      sum := sum + rates[i];
      sumsq := sumsq + rates[i] * rates[i];
    }
    assert rates[..|rates|] == rates;
    if sumsq == 0.0 { return 1.0; }
    SumSqSign(rates);
    Product(|rates| as real, sumsq, |rates| as real * sumsq);
    index := sum * sum / (|rates| as real * sumsq);
    assert index == Ratio(Square(sum), |rates| as real, sumsq);
  }

  ghost predicate AllEqual(rates: seq<real>) { forall i, j | 0 <= i < j < |rates| :: rates[i] == rates[j] }

  /** At most one flow gets anything. */
  ghost predicate OneTakesAll(rates: seq<real>) {
    forall i, j | 0 <= i < j < |rates| :: rates[i] == 0.0 || rates[j] == 0.0
  }

  /** The squared distances of all rates from x. */
  function Spread(rates: seq<real>, x: real): real {
    if rates == [] then 0.0
    else Spread(rates[..|rates| - 1], x) + Square(rates[|rates| - 1] - x)
  }

  lemma {:induction false} SpreadFacts(rates: seq<real>, x: real)
    ensures Spread(rates, x) == SumSq(rates) - 2.0 * Times(x, Sum(rates)) + Times(|rates| as real, Square(x))
    ensures Spread(rates, x) >= 0.0
    ensures Spread(rates, x) == 0.0 <==> forall i | 0 <= i < |rates| :: rates[i] == x
  {
    hide Square, Times;
    if rates != [] {
      var n := |rates| - 1;
      var r, s := rates[n], Sum(rates[..n]);
      SpreadFacts(rates[..n], x);
      SquareSign(r - x);
      SpreadStep(r, x, s, n as real);
      assert |rates| as real == n as real + 1.0;
      assert forall i | 0 <= i < n :: rates[..n][i] == rates[i];
    } else {
      TimesZero(x, Square(x));
    }
  }

  lemma TimesZero(x: real, y: real)
    ensures Times(x, 0.0) == 0.0 && Times(0.0, y) == 0.0
  {}

  lemma SpreadStep(r: real, x: real, s: real, n: real)
    ensures Square(r - x) == Square(r) - 2.0 * Times(x, r) + Square(x)
    ensures Times(x, s + r) == Times(x, s) + Times(x, r)
    ensures Times(n + 1.0, Square(x)) == Times(n, Square(x)) + Square(x)
  {}

  /** n times the sum of squares minus the square of the sum. */
  function Imbalance(rates: seq<real>): real { Times(|rates| as real, SumSq(rates)) - Square(Sum(rates)) }

  lemma {:induction false} ImbalanceFacts(rates: seq<real>)
    ensures Imbalance(rates) >= 0.0
    ensures Imbalance(rates) == 0.0 <==> AllEqual(rates)
  {
    hide Square, Times;
    if rates == [] {
      SquareSign(0.0);
      TimesZero(0.0, 0.0);
    } else {
      var n := |rates| - 1;
      var x := rates[n];
      ImbalanceFacts(rates[..n]);
      SpreadFacts(rates[..n], x);
      ImbalanceStep(n as real, Sum(rates[..n]), SumSq(rates[..n]), x);
      assert |rates| as real == n as real + 1.0;
      assert Imbalance(rates) == Imbalance(rates[..n]) + Spread(rates[..n], x);
      assert AllEqual(rates) <==> AllEqual(rates[..n]) && forall i | 0 <= i < n :: rates[..n][i] == x;
    }
  }

  lemma ImbalanceStep(n: real, s: real, q: real, x: real)
    ensures Times(n + 1.0, q + Square(x)) - Square(s + x)
         == (Times(n, q) - Square(s)) + (q - 2.0 * Times(x, s) + Times(n, Square(x)))
  {}

  lemma {:induction false} NonNegativeFacts(rates: seq<real>)
    requires forall r <- rates :: r >= 0.0
    ensures Sum(rates) >= 0.0
    ensures Sum(rates) == 0.0 <==> forall i | 0 <= i < |rates| :: rates[i] == 0.0
    ensures Square(Sum(rates)) >= SumSq(rates)
    ensures Square(Sum(rates)) == SumSq(rates) <==> OneTakesAll(rates)
  {
    hide Square;
    if rates == [] {
      SquareSign(0.0);
    } else {
      var n := |rates| - 1;
      var x, s := rates[n], Sum(rates[..n]);
      assert x in rates && forall r <- rates[..n] :: r in rates;
      NonNegativeFacts(rates[..n]);
      SquareSum(s, x);
      assert s * x >= 0.0 && (s * x == 0.0 ==> s == 0.0 || x == 0.0);
      assert OneTakesAll(rates) <==> OneTakesAll(rates[..n]) && forall i | 0 <= i < n :: rates[..n][i] == 0.0 || x == 0.0;
    }
  }

  lemma SquareSum(s: real, x: real)
    ensures Square(s + x) == Square(s) + 2.0 * (s * x) + Square(x)
  {}

  lemma Quotient(a: real, b: real)
    requires b > 0.0
    ensures (a / b <= 1.0 <==> a <= b) && (a / b == 1.0 <==> a == b)
  {
    assert a / b * b == a;
  }

  lemma ImbalanceIs(rates: seq<real>)
    ensures Imbalance(rates) == Times(|rates| as real, SumSq(rates)) - Square(Sum(rates))
  {}

  /** Of n rates that are not negative and not all zero, the index lies between 1/n and 1. It is 1
    * exactly when all rates are equal, and 1/n exactly when one flow takes everything. */
  lemma JainRange(rates: seq<real>)
    requires (forall r <- rates :: r >= 0.0) && exists r <- rates :: r != 0.0
    ensures |rates| > 0
    ensures 1.0 / |rates| as real <= Index(rates) <= 1.0
    ensures Index(rates) == 1.0 <==> AllEqual(rates)
    ensures Index(rates) == 1.0 / |rates| as real <==> OneTakesAll(rates)
  {
    hide Square, Times, Ratio, Sum, SumSq, Imbalance, AllEqual, OneTakesAll;
    var n, s2, q := |rates| as real, Square(Sum(rates)), SumSq(rates);
    SumSqSign(rates);
    ImbalanceFacts(rates);
    ImbalanceIs(rates);
    NonNegativeFacts(rates);
    RatioRange(s2, n, q);
  }

  lemma RatioRange(s2: real, n: real, q: real)
    requires n > 0.0 && q > 0.0 && s2 >= q && Times(n, q) - s2 >= 0.0
    ensures 1.0 / n <= Ratio(s2, n, q) <= 1.0
    ensures Ratio(s2, n, q) == 1.0 <==> Times(n, q) - s2 == 0.0
    ensures Ratio(s2, n, q) == 1.0 / n <==> s2 == q
  {
    Product(n, q, n * q);
    Quotient(s2, n * q);
    LowerBound(s2, n, q);
  }

  lemma LowerBound(s2: real, n: real, q: real)
    requires n > 0.0 && q > 0.0 && s2 >= q
    ensures 1.0 / n <= s2 / (n * q)
    ensures s2 / (n * q) == 1.0 / n <==> s2 == q
  {
    assert s2 / (n * q) == (s2 / q) / n;
    assert s2 / q * q == s2;
    assert s2 / q >= 1.0;
  }

  /** When nothing is sent at all the index is 1, as for any other equal rates. */
  lemma JainEqual(rates: seq<real>)
    requires AllEqual(rates)
    ensures Index(rates) == 1.0
  {
    ImbalanceFacts(rates);
    SumSqSign(rates);
    if SumSq(rates) != 0.0 {
      var n, q := |rates| as real, SumSq(rates);
      Product(n, q, n * q);
      Quotient(Square(Sum(rates)), n * q);
    }
  }

  // ---------------------------------------------------------------- what the index measures

  function CountOf(rates: seq<real>, x: real): nat {
    if rates == [] then 0
    else CountOf(rates[..|rates| - 1], x) + if rates[|rates| - 1] == x then 1 else 0
  }

  lemma {:induction false} SumsOfShares(rates: seq<real>, x: real)
    requires forall r <- rates :: r == 0.0 || r == x
    requires x > 0.0
    ensures Sum(rates) == Times(CountOf(rates, x) as real, x)
    ensures SumSq(rates) == Times(CountOf(rates, x) as real, Square(x))
  {
    hide Square, Times;
    SquareSign(0.0);
    if rates == [] {
      TimesZero(x, x);
      TimesZero(x, Square(x));
    } else {
      var n := |rates| - 1;
      assert rates[n] in rates && forall r <- rates[..n] :: r in rates;
      SumsOfShares(rates[..n], x);
      TimesSucc(CountOf(rates[..n], x), x);
      TimesSucc(CountOf(rates[..n], x), Square(x));
    }
  }

  lemma TimesSucc(k: nat, x: real)
    ensures Times((k + 1) as real, x) == Times(k as real, x) + x
  {}

  /** The index is the share of the flows that take part: when k of n flows get the same rate and the
    * others nothing, it is k/n. */
  lemma JainShare(rates: seq<real>, x: real)
    requires x > 0.0 && CountOf(rates, x) > 0 && forall r <- rates :: r == 0.0 || r == x
    ensures |rates| > 0 && Index(rates) == CountOf(rates, x) as real / |rates| as real
  {
    hide Sum, SumSq, Ratio;
    var k, n := CountOf(rates, x) as real, |rates| as real;
    SumsOfShares(rates, x);
    Product(x, x, Square(x));
    Product(k, Square(x), SumSq(rates));
    SumSqSign(rates);
    SquareOfTimes(k, x);
    RatioOfShares(k, n, SumSq(rates));
  }

  lemma SquareOfTimes(k: real, x: real)
    ensures Square(Times(k, x)) == Times(k, Times(k, Square(x)))
  {
    assert (k * x) * (k * x) == k * (k * (x * x));
  }

  lemma RatioOfShares(k: real, n: real, q: real)
    requires n > 0.0 && q > 0.0
    ensures Ratio(Times(k, q), n, q) == k / n
  {
    Product(n, q, n * q);
    var x := k / n;
    assert x * n == k;
    assert x * (n * q) == k * q by { assert x * (n * q) == (x * n) * q; }
    var y := (k * q) / (n * q);
    assert y * (n * q) == k * q;
    assert (y - x) * (n * q) == 0.0;
  }
}
