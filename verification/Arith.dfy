/** Machine word sizes, and the division and remainder facts the solver needs spelled out. */
module Arith {

  const TWO_32: int := 0x1_0000_0000
  const TWO_64: int := 0x1_0000_0000_0000_0000

  lemma SmallMod(x: int, m: int)
    requires 0 <= x < m
    ensures x % m == x
  {
  }

  lemma MulMonotone(a: int, b: int, m: int)
    requires a <= b && m >= 0
    ensures a * m <= b * m
  {
  }

  /** Quotient and remainder are unique. */
  lemma DivModUnique(x: int, q: int, m: int, r: int)
    requires 0 <= r < m && x == q * m + r
    ensures x / m == q && x % m == r
  {
    var q', r' := x / m, x % m;
    assert x == q' * m + r';
    assert (q + 1) * m == q * m + m && (q' + 1) * m == q' * m + m;
    if q < q' {
      MulMonotone(q + 1, q', m);
    } else if q > q' {
      MulMonotone(q' + 1, q, m);
    }
  }

  /** The least multiple of `page` not below `n`. */
  function RoundUp(n: nat, page: nat): (r: nat)
    requires page > 0
    ensures r >= n && r - n < page && r % page == 0
  {
    if n == 0 then
      DivModUnique(0, 0, page, 0);
      0
    else if n <= page then
      DivModUnique(page, 1, page, 0);
      page
    else
      var r := RoundUp(n - page, page);
      AddMultiple(r, page);
      r + page
  }

  lemma AddMultiple(r: nat, page: nat)
    requires page > 0
    ensures (r + page) % page == r % page
  {
    var q := r / page;
    assert (q + 1) * page == q * page + page;
    DivModUnique(r + page, q + 1, page, r % page);
  }

  /** Rounding up gives the least multiple not below. */
  lemma RoundUpLeast(n: nat, page: nat, c: nat)
    requires page > 0 && c >= n && c % page == 0
    ensures RoundUp(n, page) <= c
  {
    MultiplesApart(RoundUp(n, page), c, page);
  }

  /** Of two multiples the greater is greater by at least the whole. */
  lemma MultiplesApart(a: nat, b: nat, m: nat)
    requires m > 0 && a % m == 0 && b % m == 0
    ensures a <= b || a - b >= m
  {
    var p, q := a / m, b / m;
    assert a == p * m && b == q * m;
    if p > q {
      MulMonotone(1, p - q, m);
      assert (p - q) * m == p * m - q * m;
    } else {
      MulMonotone(p, q, m);
    }
  }

  /** The source's formula for power-of-two pages, (n + page - 1) & ~(page - 1), is this rounding. */
  lemma RoundUpFormula(n: nat, page: nat)
    requires page > 0
    ensures RoundUp(n, page) == (n + page - 1) / page * page
  {
    var r := RoundUp(n, page);
    var q := r / page;
    assert r == q * page;
    DivModUnique(n + page - 1, q, page, n + page - 1 - r);
  }

  lemma Distribute(x: int, c: int, d: int, s: int)
    ensures (x * c + d) * s == x * (s * c) + d * s
  {
    assert (x * c) * s == x * (s * c);
  }

  lemma DigitsBelow(d: nat, c: nat, e: nat, s: nat)
    requires d < c && e < s
    ensures 0 <= d * s + e < s * c
  {
    MulMonotone(d, c - 1, s);
    assert (c - 1) * s == s * c - s;
    MulMonotone(0, d, s);
  }

  /** Quotient and remainder by a product, taken in two steps. */
  lemma DivModProduct(i: nat, s: nat, c: nat)
    requires s > 0 && c > 0
    ensures s * c > 0 && i / (s * c) == i / s / c && i % (s * c) == i / s % c * s + i % s
  {
    var q, e := i / s, i % s;
    var x, d := q / c, q % c;
    DigitsBelow(d, c, e, s);
    assert i == q * s + e;
    assert q == x * c + d;
    Distribute(x, c, d, s);
    DivModUnique(i, x, s * c, d * s + e);
  }

  /** Remainders may be taken before adding. */
  lemma ModAddLeft(x: int, y: int, m: nat)
    requires m > 0
    ensures (x % m + y) % m == (x + y) % m
  {
    var r := x % m + y;
    assert x + y == (x / m) * m + r;
    assert (x / m) * m + (r / m) * m == (x / m + r / m) * m;
    DivModUnique(x + y, x / m + r / m, m, r % m);
  }

  /** Remainders may be taken before multiplying. */
  lemma ModMulLeft(x: nat, y: nat, m: nat)
    requires m > 0
    ensures x % m * y % m == x * y % m
  {
    var q, r := x / m, x % m;
    var p := r * y;
    Distribute(q, m, r, y);
    assert x == q * m + r && q * (y * m) == q * y * m;
    assert q * y * m + (p / m) * m == (q * y + p / m) * m;
    DivModUnique(x * y, q * y + p / m, m, p % m);
  }

  lemma SumAligned(a: nat, b: nat, blk: nat)
    requires blk > 0 && a % blk == 0 && b % blk == 0
    ensures (a + b) % blk == 0
  {
    var p, q := a / blk, b / blk;
    assert a == p * blk && b == q * blk;
    assert (p + q) * blk == a + b;
    DivModUnique(a + b, p + q, blk, 0);
  }

  lemma DiffAligned(a: nat, b: nat, blk: nat)
    requires blk > 0 && a % blk == 0 && b % blk == 0 && b <= a
    ensures (a - b) % blk == 0
  {
    var p, q := a / blk, b / blk;
    assert a == p * blk && b == q * blk;
    assert (p - q) * blk == a - b;
    DivModUnique(a - b, p - q, blk, 0);
  }
}
