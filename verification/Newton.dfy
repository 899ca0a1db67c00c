/** Integer square roots by Newton's iteration. The governance contract and the
    example contract each have their own loop; the two start from different
    points and work on different integer types. */
module Newton {
  import opened MachineInts

  predicate IsFloorSqrt(n: nat, r: nat) {
    r * r <= n < (r + 1) * (r + 1)
  }

  /** The floor square root, by a definition that shares nothing with the loops. */
  function ISqrt(n: nat): (r: nat)
    ensures IsFloorSqrt(n, r)
  {
    if n == 0 then 0 else
      var r := ISqrt(n - 1);
      if (r + 1) * (r + 1) <= n then r + 1 else r
  }

  lemma FloorSqrtUnique(n: nat, r: nat, q: nat)
    requires IsFloorSqrt(n, r) && IsFloorSqrt(n, q)
    ensures r == q
  {
    if r < q {
      SquareMonotone(r + 1, q);
    } else if q < r {
      SquareMonotone(q + 1, r);
    }
  }

  lemma SquareMonotone(a: nat, b: nat)
    requires a <= b
    ensures a * a <= b * b
  {
    assert a * a <= a * b <= b * b;
  }

  /** At most n for every n, and within 64 bits for every 128-bit n. */
  lemma SqrtSmall(n: nat)
    ensures ISqrt(n) <= n
    ensures n <= MAX_U128 ==> ISqrt(n) <= MAX_U64
  {
    var r := ISqrt(n);
    if r > 0 {
      assert r <= r * r;
    }
    if n <= MAX_U128 && r > MAX_U64 {
      SquareMonotone(MAX_U64 + 1, r);
    }
  }

  predicate AboveRoot(n: nat, x: nat) {
    n < (x + 1) * (x + 1)
  }

  /** q is the quotient of n by x. */
  predicate IsQuotient(n: nat, x: nat, q: nat) {
    x * q <= n < x * (q + 1)
  }

  lemma Quotient(n: nat, x: nat)
    requires x > 0
    ensures IsQuotient(n, x, n / x)
  {
    assert n == x * (n / x) + n % x;
  }

  /** One Newton step from any positive x lands on the root or above it. */
  lemma StepAboveRoot(n: nat, x: nat, q: nat)
    requires IsQuotient(n, x, q)
    ensures AboveRoot(n, (x + q) / 2)
  {
    var y := (x + q) / 2;
    MeanInequality(x, q + 1, y + 1);
  }

  /** The geometric mean is at most the arithmetic mean. */
  lemma MeanInequality(a: nat, b: nat, m: nat)
    requires a + b <= 2 * m
    ensures a * b <= m * m
  {
    SquareMonotone(a + b, 2 * m);
    assert (a + b) * (a + b) - 4 * (a * b) == (a - b) * (a - b);
    assert (2 * m) * (2 * m) == 4 * (m * m);
    SquareNonNegative(a - b);
  }

  lemma SquareNonNegative(d: int)
    ensures d * d >= 0
  {
  }

  /** When a step does not go down, x is at most the root. */
  lemma StoppedAtRoot(n: nat, x: nat, q: nat)
    requires IsQuotient(n, x, q) && (x + q) / 2 >= x
    ensures x * x <= n
  {
    assert x * x <= x * q;
  }

  lemma ProductBound(x: nat, q: nat)
    ensures q >= x + 3 && x > 0 ==> x * q >= (x + 1) * (x + 1)
  {
    if q >= x + 3 && x > 0 {
      assert x * q >= x * (x + 3);
    }
  }

  /** Bounds that keep the sum in a step within 128 bits and the next x positive. */
  lemma QuotientBound(n: nat, x: nat, q: nat)
    requires IsQuotient(n, x, q) && n >= x > 0 && x <= n / 2 + 1 && AboveRoot(n, x)
    ensures 1 <= q && x + q <= if n < 4 then 8 else n
  {
    ProductBound(x, q);
    QuotientPositive(n, x, q);
    if x >= 2 && q >= 2 {
      SumBelowProduct(x, q);
    } else if x == 1 {
      assert q == n;
    }
  }

  lemma QuotientPositive(n: nat, x: nat, q: nat)
    requires IsQuotient(n, x, q) && n >= x > 0
    ensures q >= 1
  {
  }

  lemma SumBelowProduct(x: nat, q: nat)
    requires x >= 2 && q >= 2
    ensures x + q <= x * q
  {
    assert (x - 1) * (q - 1) >= 1;
  }

  /** The division both loops make, with the bounds an iteration needs. */
  method Divide(n: nat, x: nat) returns (q: nat)
    requires n >= x > 0 && x <= n / 2 + 1 && AboveRoot(n, x)
    ensures IsQuotient(n, x, q) && 1 <= q && x + q <= if n < 4 then 8 else n
  {
    q := n / x;
    Quotient(n, x);
    QuotientBound(n, x, q);
  }

  lemma Finished(n: nat, x: nat, q: nat)
    requires IsQuotient(n, x, q) && (x + q) / 2 >= x && AboveRoot(n, x)
    ensures x == ISqrt(n)
  {
    StoppedAtRoot(n, x, q);
    FloorSqrtUnique(n, x, ISqrt(n));
  }

  lemma SmallRoots()
    ensures ISqrt(0) == 0 && ISqrt(1) == 1
  {
  }

  /** The loop of the governance contract, which takes any i128. */
  method GovernanceSqrt(n: I128) returns (r: I128)
    ensures n <= 0 ==> r == 0
    ensures n > 0 ==> r == ISqrt(n)
  {
    hide IsQuotient;
    hide AboveRoot;
    hide ISqrt;
    hide IsFloorSqrt;
    if n <= 0 {
      return 0;
    }
    SmallRoots();
    if n < 2 {
      return n;
    }
    var x: I128 := n / 2 + 1;
    HalfAboveRoot(n);
    var q := Divide(n, x);
    var sum: I128 := x + q;
    var y: I128 := sum / 2;
    while y < x
      invariant 0 < y && 0 < x <= n / 2 + 1
      invariant AboveRoot(n, x)
      invariant IsQuotient(n, x, q) && y == (x + q) / 2
      decreases x
    {
      StepAboveRoot(n, x, q);
      x := y;
      q := Divide(n, x);
      sum := x + q;
      y := sum / 2;
    }
    Finished(n, x, q);
    r := x;
  }

  /** The loop of the example contract, which takes any u128 and starts one lower. */
  method ExampleSqrt(n: U128) returns (r: U128)
    ensures r == ISqrt(n)
  {
    hide IsQuotient;
    hide AboveRoot;
    hide ISqrt;
    hide IsFloorSqrt;
    SmallRoots();
    if n < 2 {
      return n;
    }
    var x: U128 := n / 2;
    HalfAboveRoot(n);
    var q := Divide(n, x);
    var sum: U128 := x + q;
    var y: U128 := sum / 2;
    while y < x
      invariant 0 < y && 0 < x <= n / 2
      invariant AboveRoot(n, x)
      invariant IsQuotient(n, x, q) && y == (x + q) / 2
      decreases x
    {
      StepAboveRoot(n, x, q);
      x := y;
      q := Divide(n, x);
      sum := x + q;
      y := sum / 2;
    }
    Finished(n, x, q);
    r := x;
  }

  lemma HalfAboveRoot(n: nat)
    requires n >= 2
    ensures AboveRoot(n, n / 2) && AboveRoot(n, n / 2 + 1)
  {
    var h := n / 2;
    assert (h + 1) * (h + 1) == h * h + 2 * h + 1;
    assert (h + 2) * (h + 2) == h * h + 4 * h + 4;
    assert h * h >= h;
  }

  /** The two loops give the same answer wherever both are defined. */
  method SqrtsAgree(n: I128) returns (g: I128, e: U128)
    requires n >= 0
    ensures g == e
    ensures IsFloorSqrt(n, g)
  {
    g := GovernanceSqrt(n);
    e := ExampleSqrt(n);
    assert ISqrt(0) == 0;
  }
}
