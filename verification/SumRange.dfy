/**
  When clo_eval_range_uint of src/benchmarks/clo.cpp returns for a sum range.
  Adding a step over and over, modulo 2^64, visits exactly the values that leave
  the same remainder by the greatest power of two dividing the step.
*/
module SumRange {
  import opened Arith
  import opened CloRange

  /** The greatest power of two that divides `s`. */
  function LowBit(s: nat): (g: nat)
    requires s > 0
    ensures g > 0
  {
    if s % 2 == 1 then 1 else 2 * LowBit(s / 2)
  }

  lemma {:induction false} LowBitDivides(s: nat) returns (odd: nat, e: nat)
    requires s > 0
    ensures odd % 2 == 1 && s == LowBit(s) * odd && LowBit(s) == Pow(2, e)
  {
    if s % 2 == 1 {
      odd, e := s, 0;
    } else {
      odd, e := LowBitDivides(s / 2);
      e := e + 1;
      assert s == 2 * (LowBit(s / 2) * odd) == (2 * LowBit(s / 2)) * odd;
    }
  }

  lemma {:induction false} PowAdd(a: nat, b: nat)
    ensures Pow(2, a + b) == Pow(2, a) * Pow(2, b)
  {
    if a > 0 {
      PowAdd(a - 1, b);
      assert 2 * (Pow(2, a - 1) * Pow(2, b)) == 2 * Pow(2, a - 1) * Pow(2, b);
    }
  }

  lemma PowSixtyFour()
    ensures Pow(2, 64) == TWO_64
  {
    assert Pow(2, 8) == 256;
    PowAdd(8, 8);
    PowAdd(16, 16);
    PowAdd(32, 32);
  }

  lemma {:induction false} PowGrows(a: nat, b: nat)
    requires a <= b
    ensures Pow(2, a) <= Pow(2, b)
  {
    if a < b {
      PowGrows(a, b - 1);
    }
  }

  /** The greatest power of two dividing a 64-bit step divides 2^64, and the quotient is a power of two. */
  lemma LowBitFits(s: nat) returns (odd: nat, m: nat)
    requires 0 < s < TWO_64
    ensures odd % 2 == 1 && s == LowBit(s) * odd && LowBit(s) * Pow(2, m) == TWO_64
  {
    var e;
    odd, e := LowBitDivides(s);
    PowSixtyFour();
    MulMonotone(1, odd, LowBit(s));
    if e >= 64 {
      PowGrows(64, e);
    }
    m := 64 - e;
    PowAdd(e, m);
  }

  /** An odd number has an inverse modulo every power of two. */
  lemma {:induction false} OddInverse(odd: nat, m: nat) returns (v: nat, u: nat)
    requires odd % 2 == 1
    ensures odd * v == 1 + u * Pow(2, m)
  {
    if m == 0 {
      v, u := 1, odd - 1;
    } else {
      v, u := OddInverse(odd, m - 1);
      v, u := InverseStep(odd, v, u, Pow(2, m - 1));
    }
  }

  lemma InverseStep(odd: nat, v: nat, u: nat, p: nat) returns (v': nat, u': nat)
    requires odd % 2 == 1 && odd * v == 1 + u * p
    ensures odd * v' == 1 + u' * (2 * p)
  {
    if u % 2 == 0 {
      v', u' := v, u / 2;
      Halve(u, p);
    } else {
      v', u' := v + p, (u + odd) / 2;
      Halve(u + odd, p);
      AddProducts(odd, v, u, p);
    }
  }

  lemma Halve(u: nat, p: nat)
    requires u % 2 == 0
    ensures u * p == u / 2 * (2 * p)
  {
    var w := u / 2;
    assert u == 2 * w;
  }

  lemma AddProducts(odd: nat, v: nat, u: nat, p: nat)
    ensures odd * (v + p) == odd * v + odd * p && (u + odd) * p == u * p + odd * p
  {
  }

  /** Reducing modulo a multiple of `g` keeps the remainder by `g`. */
  lemma ModOfMod(x: nat, g: nat, h: nat)
    requires g > 0 && h > 0
    ensures g * h > 0 && x % (g * h) % g == x % g
  {
    DivModProduct(x, g, h);
    DivModUnique(x % (g * h), x / g % h, g, x % g);
  }

  /** The greatest 64-bit value with the remainder of `first` by `g`. */
  function Greatest(first: nat, g: nat): int
    requires g > 0
  {
    TWO_64 - g + first % g
  }

  /** Every term of a sum has the remainder of the first, so none is past the greatest such value. */
  lemma SumsBounded(first: nat, s: nat, k: nat)
    requires 0 < s < TWO_64
    ensures Term64(Plus, first, s, k) <= Greatest(first, LowBit(s))
  {
    var g := LowBit(s);
    var odd, m := LowBitFits(s);
    var h := Pow(2, m);
    PowPositive(2, m);
    var x := first + k * s;
    UpwardTerm(Plus, first, s, k);
    SumRemainder(first, k, g, odd);
    ModOfMod(x, g, h);
    BelowGreatest(x % TWO_64, g, h);
  }

  lemma SumRemainder(first: nat, k: nat, g: nat, odd: nat)
    requires g > 0
    ensures (first + k * (g * odd)) % g == first % g
  {
    var q, r := first / g, first % g;
    assert k * (g * odd) == k * odd * g;
    assert q * g + k * odd * g == (q + k * odd) * g;
    DivModUnique(first + k * (g * odd), q + k * odd, g, r);
  }

  lemma BelowGreatest(y: nat, g: nat, h: nat)
    requires g > 0 && h > 0 && y < g * h
    ensures y <= g * h - g + y % g
  {
    var q := y / g;
    if q >= h {
      MulMonotone(h, q, g);
    } else {
      MulMonotone(q, h - 1, g);
      assert (h - 1) * g == g * h - g;
    }
  }

  /** The greatest such value is a term. */
  lemma GreatestIsReached(first: nat, s: nat) returns (k: nat)
    requires 0 < s < TWO_64 && first < TWO_64
    ensures k > 0 && Term64(Plus, first, s, k) == Greatest(first, LowBit(s))
  {
    var g := LowBit(s);
    var odd, m := LowBitFits(s);
    PowPositive(2, m);
    var v, u := OddInverse(odd, m);
    var t: nat;
    k, t := RoundsToGreatest(first, g, Pow(2, m), odd, v, u);
    DivModUnique(first + k * s, t, TWO_64, Greatest(first, g));
  }

  lemma RoundsToGreatest(first: nat, g: nat, h: nat, odd: nat, v: nat, u: nat) returns (k: nat, t: nat)
    requires g > 0 && h > 0 && first < g * h && odd * v == 1 + u * h
    ensures k > 0 && first + k * (g * odd) == t * (g * h) + (g * h - g + first % g)
  {
    var p := first / g;
    QuotientBelow(first, g, h);
    var d := h - 1 - p;
    k, t := v * d + h, d * u + odd;
    Reaches(p, d, h, v, u, odd);
    Reassemble(p, first % g, k, g, odd, h, t);
  }

  lemma QuotientBelow(x: nat, g: nat, h: nat)
    requires g > 0 && h > 0 && x < g * h
    ensures x / g <= h - 1
  {
    if x / g >= h {
      MulMonotone(h, x / g, g);
    }
  }

  /** Counted in multiples of `g`, the k-th term is the last of its round. */
  lemma Reaches(p: nat, d: nat, h: nat, v: nat, u: nat, odd: nat)
    requires h > 0 && p + d == h - 1 && odd * v == 1 + u * h
    ensures p + (v * d + h) * odd == (d * u + odd) * h + h - 1
  {
    assert (v * d + h) * odd == d * (odd * v) + odd * h;
    assert d * (1 + u * h) == d + d * u * h;
    assert d * u * h + odd * h == (d * u + odd) * h;
  }

  lemma Reassemble(p: nat, r: nat, k: nat, g: nat, odd: nat, h: nat, t: int)
    requires p + k * odd == t * h + h - 1
    ensures p * g + r + k * (g * odd) == t * (g * h) + (g * h - g + r)
  {
    assert p * g + k * (g * odd) == (p + k * odd) * g;
    assert (t * h + h - 1) * g == t * (g * h) + g * h - g;
  }

  /** A sum range returns exactly when the greatest value it can reach is past the last. */
  lemma SumReturnsIff(first: nat, s: nat, l: nat)
    requires 0 < s < TWO_64 && first < TWO_64
    ensures Returns(Plus, first, s, l) <==> Greatest(first, LowBit(s)) > l
  {
    ReturnsIff(Plus, first, s, l);
    if Returns(Plus, first, s, l) {
      var k: nat :| k > 0 && Passes(Plus, Term64(Plus, first, s, k), l);
      SumsBounded(first, s, k);
    }
    if Greatest(first, LowBit(s)) > l {
      var k := GreatestIsReached(first, s);
      assert Passes(Plus, Term64(Plus, first, s, k), l);
    }
  }
}
