/** Exact rationals are Dafny `real`s. This module gives the one operation the
    simulation needs beyond field arithmetic: `Fraction.limit_denominator`,
    the closest fraction whose denominator is at most a bound.

    `Limit` is the specification of that operation: the fraction with
    denominator <= cap closest to r; on a tie the one with the smaller
    denominator, as the library's final comparison keeps the convergent over
    the semiconvergent. `LimitDenominator` computes it by trying the
    denominators 1..cap in turn; the continued-fraction search the library
    uses to find the same value quickly is not modelled. */
module Rational {

  /** The distance |a - b|. */
  function Dist(a: real, b: real): real {
    if a <= b then b - a else a - b
  }

  /** The fraction n/d. */
  function Frac(n: int, d: int): real
    requires d >= 1
  {
    n as real / d as real
  }

  /** q can be written with denominator d (not necessarily in lowest terms). */
  predicate HasDenominator(q: real, d: int) {
    d >= 1 && (q * d as real).Floor as real == q * d as real
  }

  /** q can be written with a denominator of at most cap. */
  ghost predicate Fits(q: real, cap: int)
    decreases cap
  {
    cap >= 1 && (HasDenominator(q, cap) || Fits(q, cap - 1))
  }

  /** q is at least as close to r as every fraction whose denominator is at most cap. */
  ghost predicate Closest(q: real, r: real, cap: int) {
    forall n, d :: 1 <= d <= cap ==> Dist(q, r) <= Dist(Frac(n, d), r)
  }

  /** Among the fractions with denominator at most cap that are as close to r
      as q, q has the smallest denominator, and is the smaller value when the
      denominators are equal. Per fraction n/d that ties with q: q can be
      written with denominator d, and if q cannot be written with a smaller
      one, q <= n/d. */
  ghost predicate SmallestDenominatorOnTie(q: real, r: real, cap: int) {
    forall n, d :: 1 <= d <= cap && Dist(Frac(n, d), r) == Dist(q, r) ==>
      Fits(q, d) && (Fits(q, d - 1) || q <= Frac(n, d))
  }

  /** q is what limiting r to denominator cap gives: a fraction with
      denominator at most cap, closest to r, with the smaller denominator on
      a tie. */
  ghost predicate IsLimit(q: real, r: real, cap: int) {
    Fits(q, cap) && Closest(q, r, cap) && SmallestDenominatorOnTie(q, r, cap)
  }

  /** `Fits` is "some denominator in 1..cap works". */
  lemma {:induction false} FitsIff(q: real, cap: int)
    ensures Fits(q, cap) <==> exists d :: 1 <= d <= cap && HasDenominator(q, d)
    decreases cap
  {
    if cap >= 1 {
      FitsIff(q, cap - 1);
    }
  }

  /** A value that fits a cap fits every larger cap. */
  lemma {:induction false} FitsMonotone(q: real, c: int, e: int)
    requires c <= e && Fits(q, c)
    ensures Fits(q, e)
    decreases e - c
  {
    if c < e {
      FitsMonotone(q, c, e - 1);
    }
  }

  /** A value that fits has a least denominator: one it can be written with,
      and no smaller cap fits it. */
  lemma {:induction false} LeastDenominator(q: real, cap: int)
    requires Fits(q, cap)
    ensures exists d :: 1 <= d <= cap && HasDenominator(q, d) && !Fits(q, d - 1)
    decreases cap
  {
    if Fits(q, cap - 1) {
      LeastDenominator(q, cap - 1);
    }
  }

  lemma FracHasDenominator(n: int, d: int)
    requires d >= 1
    ensures HasDenominator(Frac(n, d), d)
  {
    assert Frac(n, d) * d as real == n as real;
  }

  /** A value with denominator d is the fraction floor(q*d)/d. */
  lemma AsFrac(q: real, d: int)
    requires HasDenominator(q, d)
    ensures Frac((q * d as real).Floor, d) == q
  {
  }

  lemma FracMonotone(n: int, m: int, d: int)
    requires d >= 1 && n <= m
    ensures Frac(n, d) <= Frac(m, d)
  {
  }

  /** Bracketing: f/d <= r < (f+1)/d where f = floor(r*d). */
  lemma FloorBrackets(r: real, d: int)
    requires d >= 1
    ensures Frac((r * d as real).Floor, d) <= r < Frac((r * d as real).Floor + 1, d)
  {
  }

  /** The closest fraction with denominator exactly d; on a tie the smaller one. */
  function Nearest(r: real, d: int): real
    requires d >= 1
  {
    var f := (r * d as real).Floor;
    var lo, hi := Frac(f, d), Frac(f + 1, d);
    if r - lo <= hi - r then lo else hi
  }

  /** `Nearest(r, d)` has denominator d, no fraction with denominator d is
      closer to r, and every one as close is at least as large. */
  lemma NearestIsClosest(r: real, d: int)
    requires d >= 1
    ensures HasDenominator(Nearest(r, d), d)
    ensures forall n :: Dist(Nearest(r, d), r) <= Dist(Frac(n, d), r)
    ensures forall n :: Dist(Frac(n, d), r) == Dist(Nearest(r, d), r) ==> Nearest(r, d) <= Frac(n, d)
  {
    var f := (r * d as real).Floor;
    var q := Nearest(r, d);
    FloorBrackets(r, d);
    FracHasDenominator(f, d);
    FracHasDenominator(f + 1, d);
    forall n ensures Dist(q, r) <= Dist(Frac(n, d), r)
      && (Dist(Frac(n, d), r) == Dist(q, r) ==> q <= Frac(n, d))
    {
      if n <= f {
        FracMonotone(n, f, d);
      } else {
        FracMonotone(f + 1, n, d);
      }
    }
  }

  /** The better of a new candidate c and the best so far: the new one only
      when it is strictly closer, so on a tie the one found with the smaller
      denominator stays. */
  function Closer(r: real, c: real, best: real): real {
    if Dist(c, r) < Dist(best, r) then c else best
  }

  /** Trying denominator d after the best fraction with denominator below d
      gives the best fraction with denominator at most d. */
  lemma CloserExtends(r: real, d: int, best: real)
    requires d >= 2 && IsLimit(best, r, d - 1)
    ensures IsLimit(Closer(r, Nearest(r, d), best), r, d)
  {
    var c := Nearest(r, d);
    var q := Closer(r, c, best);
    NearestIsClosest(r, d);
    assert Fits(q, d) by {
      FitsIff(best, d - 1);
      FitsIff(q, d);
      if q == c {
        assert HasDenominator(c, d);
      } else {
        var e :| 1 <= e <= d - 1 && HasDenominator(best, e);
      }
    }
    forall n, e | 1 <= e <= d
      ensures Dist(q, r) <= Dist(Frac(n, e), r)
      ensures Dist(Frac(n, e), r) == Dist(q, r) ==> Fits(q, e) && (Fits(q, e - 1) || q <= Frac(n, e))
    {
      if e == d {
        assert Dist(c, r) <= Dist(Frac(n, d), r);
        assert HasDenominator(c, d);
      } else {
        assert Dist(best, r) <= Dist(Frac(n, e), r);
      }
    }
  }

  /** The best fraction with denominator 1 is the nearest integer. */
  lemma NearestIntegerIsLimit(r: real)
    ensures IsLimit(Nearest(r, 1), r, 1)
  {
    NearestIsClosest(r, 1);
  }

  /** Some fraction is the limit of r: induction on the cap. */
  lemma {:induction false} LimitExists(r: real, cap: int)
    requires cap >= 1
    ensures exists q :: IsLimit(q, r, cap)
    decreases cap
  {
    if cap == 1 {
      NearestIntegerIsLimit(r);
    } else {
      LimitExists(r, cap - 1);
      var best :| IsLimit(best, r, cap - 1);
      CloserExtends(r, cap, best);
    }
  }

  /** At most one fraction is the limit of r: two limits are equally close,
      so each has a denominator no larger than the other's least one. */
  lemma LimitUnique(a: real, b: real, r: real, cap: int)
    requires IsLimit(a, r, cap) && IsLimit(b, r, cap)
    ensures a == b
  {
    LeastDenominator(a, cap);
    LeastDenominator(b, cap);
    var da :| 1 <= da <= cap && HasDenominator(a, da) && !Fits(a, da - 1);
    var db :| 1 <= db <= cap && HasDenominator(b, db) && !Fits(b, db - 1);
    AsFrac(a, da);
    AsFrac(b, db);
    assert Dist(a, r) <= Dist(Frac((b * db as real).Floor, db), r);
    assert Dist(b, r) <= Dist(Frac((a * da as real).Floor, da), r);
    assert Fits(a, db) && (Fits(a, db - 1) || a <= b);
    assert Fits(b, da) && (Fits(b, da - 1) || b <= a);
    if da < db {
      FitsMonotone(b, da, db - 1);
    } else if db < da {
      FitsMonotone(a, db, da - 1);
    }
  }

  /** `Fraction.limit_denominator(cap)` as a specification: the unique
      fraction with denominator at most cap that is closest to r, with the
      smaller denominator on a tie. */
  ghost function Limit(r: real, cap: int): real
    requires cap >= 1
  {
    LimitExists(r, cap);
    var q :| IsLimit(q, r, cap); q
  }

  /** `Fraction.limit_denominator(cap)`: try every denominator 1..cap and keep
      the closest fraction. */
  method LimitDenominator(r: real, cap: int) returns (q: real)
    requires cap >= 1
    ensures q == Limit(r, cap)
    ensures Fits(q, cap) && Closest(q, r, cap)
  {
    q := Nearest(r, 1);
    NearestIntegerIsLimit(r);
    var d := 2;
    while d <= cap
      invariant 2 <= d <= cap + 1
      invariant IsLimit(q, r, d - 1)
      decreases cap - d
    {
      CloserExtends(r, d, q);
      q := Closer(r, Nearest(r, d), q);
      d := d + 1;
    }
    LimitUnique(q, Limit(r, cap), r, cap);
  }

  /** A value that already has a denominator within the cap is returned unchanged. */
  lemma LimitKeepsFitting(r: real, cap: int)
    requires cap >= 1
    ensures Fits(r, cap) ==> Limit(r, cap) == r
  {
    if Fits(r, cap) {
      forall n, d | 1 <= d <= cap && Dist(Frac(n, d), r) == Dist(r, r)
        ensures Fits(r, d)
      {
        FracHasDenominator(n, d);
      }
      assert IsLimit(r, r, cap);
      LimitUnique(r, Limit(r, cap), r, cap);
    }
  }

  /** Integers fit every cap. */
  lemma IntegerFits(k: int, cap: int)
    requires cap >= 1
    ensures Fits(k as real, cap)
  {
    assert HasDenominator(k as real, 1);
    FitsIff(k as real, cap);
  }

  /** Integers fit every cap, so they are never changed. */
  lemma LimitOfInteger(k: int, cap: int)
    requires cap >= 1
    ensures Limit(k as real, cap) == k as real
  {
    IntegerFits(k, cap);
    LimitKeepsFitting(k as real, cap);
  }

  /** Capping twice is capping once. */
  lemma LimitIdempotent(r: real, cap: int)
    requires cap >= 1
    ensures Limit(Limit(r, cap), cap) == Limit(r, cap)
  {
    LimitKeepsFitting(Limit(r, cap), cap);
  }

  /** A fitting value below (above) r stays below (above) the capped r. */
  lemma LimitBetween(r: real, a: real, cap: int)
    requires cap >= 1 && Fits(a, cap)
    ensures a <= r ==> a <= Limit(r, cap)
    ensures r <= a ==> Limit(r, cap) <= a
  {
    FitsIff(a, cap);
    var d :| 1 <= d <= cap && HasDenominator(a, d);
    AsFrac(a, d);
    assert Dist(Limit(r, cap), r) <= Dist(Frac((a * d as real).Floor, d), r);
  }

  /** Capping never turns a non-negative value negative. */
  lemma LimitNonNegative(r: real, cap: int)
    requires cap >= 1
    ensures r >= 0.0 ==> Limit(r, cap) >= 0.0
  {
    IntegerFits(0, cap);
    LimitBetween(r, 0.0, cap);
  }

  /** Capping is monotone: it never swaps the order of two values. */
  lemma LimitMonotone(a: real, b: real, cap: int)
    requires cap >= 1 && a <= b
    ensures Limit(a, cap) <= Limit(b, cap)
  {
    var qa, qb := Limit(a, cap), Limit(b, cap);
    if qb < qa {
      FitsIff(qa, cap);
      FitsIff(qb, cap);
      var da :| 1 <= da <= cap && HasDenominator(qa, da);
      var db :| 1 <= db <= cap && HasDenominator(qb, db);
      AsFrac(qa, da);
      AsFrac(qb, db);
      assert false;
    }
  }

  /** One hundredth fits every cap of at least 100. */
  lemma LimitOfHundredth(cap: int)
    requires cap >= 100
    ensures Limit(1.0 / 100.0, cap) == 1.0 / 100.0
  {
    assert HasDenominator(1.0 / 100.0, 100);
    FitsIff(1.0 / 100.0, cap);
    LimitKeepsFitting(1.0 / 100.0, cap);
  }

  /** On a tie the smaller denominator wins: 1/3 and 1/2 are both 1/12 away
      from 5/12, and capping 5/12 at 3 gives 1/2. */
  lemma TieKeepsSmallerDenominator()
    ensures Dist(1.0 / 3.0, 5.0 / 12.0) == Dist(1.0 / 2.0, 5.0 / 12.0)
    ensures Limit(5.0 / 12.0, 3) == 1.0 / 2.0
  {
    var r, h := 5.0 / 12.0, 1.0 / 2.0;
    assert HasDenominator(h, 2);
    assert !HasDenominator(h, 1);
    forall n, d | 1 <= d <= 3
      ensures Dist(h, r) <= Dist(Frac(n, d), r)
      ensures Dist(Frac(n, d), r) == Dist(h, r) ==> Fits(h, d) && (Fits(h, d - 1) || h <= Frac(n, d))
    {
      var gap := (12 * n - 5 * d) as real / (12 * d) as real;
      assert Frac(n, d) - r == gap;
      if n <= 0 {
        assert 12 * n - 5 * d <= -5 * d;
      } else if n == 1 {
        assert d == 1 || d == 2 || d == 3;
      } else {
        assert 12 * n - 5 * d >= 24 - 15;
      }
    }
    assert IsLimit(h, r, 3);
    LimitUnique(h, Limit(r, 3), r, 3);
  }
}
