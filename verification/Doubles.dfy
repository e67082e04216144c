/**
 Python's `float` on non-negative numbers: binary numbers of 53 digits, rounded to nearest with
 ties to even. The exponent is not bounded.
 */
module Doubles {

  const LOW: real := 4503599627370496.0
  const HIGH: real := 9007199254740992.0

  /** The nearest integer, the even one of two equally near. */
  function Nearest(x: real): int {
    var f := x.Floor;
    var rest := x - f as real;
    if rest < 0.5 || (rest == 0.5 && f % 2 == 0) then f else f + 1
  }

  /** How far `x` is from the numbers of 53 digits before the point. */
  ghost function Distance(x: real): nat
    requires x >= 0.0
  {
    if x == 0.0 || LOW <= x < HIGH then 0
    else if x >= HIGH then 1 + x.Floor
    else 1 + (LOW / x).Floor
  }

  lemma HalfIsNearer(x: real)
    requires x >= HIGH
    ensures Distance(x / 2.0) < Distance(x)
  {}

  lemma DoubleIsNearer(x: real)
    requires 0.0 < x < LOW
    ensures Distance(2.0 * x) < Distance(x)
  {
    var y := LOW / x;
    assert y > 1.0 by {
      assert (y - 1.0) * x == LOW - x > 0.0;
    }
    if 2.0 * x < LOW {
      assert LOW / (2.0 * x) == y / 2.0;
    }
  }

  /** The double nearest to `x`. */
  function Round(x: real): real
    requires x >= 0.0
    decreases Distance(x)
  {
    if x == 0.0 then 0.0
    else if x >= HIGH then
      HalfIsNearer(x);
      2.0 * Round(x / 2.0)
    else if x < LOW then
      DoubleIsNearer(x);
      Round(2.0 * x) / 2.0
    else Nearest(x) as real
  }

  /** The relative error is at most one part in 2^53. */
  lemma {:induction false} RoundClose(x: real)
    requires x >= 0.0
    ensures (Round(x) - x) * HIGH <= x && (x - Round(x)) * HIGH <= x
    decreases Distance(x)
  {
    if x >= HIGH {
      HalfIsNearer(x);
      RoundClose(x / 2.0);
    } else if 0.0 < x < LOW {
      DoubleIsNearer(x);
      RoundClose(2.0 * x);
    }
  }

  /** Scaling by two commutes with rounding. */
  lemma RoundTwice(x: real)
    requires x >= 0.0
    ensures Round(2.0 * x) == 2.0 * Round(x)
  {
    assert 2.0 * x / 2.0 == x;
  }

  lemma {:induction false} RoundBelow(x: real)
    requires 0.0 <= x < HIGH
    ensures 0.0 <= Round(x) <= HIGH
    decreases Distance(x)
  {
    if 0.0 < x < LOW {
      DoubleIsNearer(x);
      RoundBelow(2.0 * x);
    }
  }

  lemma NearestMonotone(x: real, y: real)
    requires x <= y
    ensures Nearest(x) <= Nearest(y)
  {}

  lemma RoundHere(x: real)
    requires LOW <= x < HIGH
    ensures Round(x) == Nearest(x) as real >= LOW
  {}

  lemma {:induction false} RoundMonotone(x: real, y: real)
    requires 0.0 <= x <= y
    ensures Round(x) <= Round(y)
    decreases Distance(y)
  {
    hide Round, Distance, Nearest;
    if y >= HIGH {
      HalfIsNearer(y);
      RoundMonotone(x / 2.0, y / 2.0);
      RoundTwice(x / 2.0);
      RoundTwice(y / 2.0);
    } else if y < LOW {
      if y > 0.0 {
        DoubleIsNearer(y);
        RoundMonotone(2.0 * x, 2.0 * y);
        RoundTwice(x);
        RoundTwice(y);
      }
    } else {
      RoundHere(y);
      if x < LOW {
        RoundBelow(2.0 * x);
        RoundTwice(x);
      } else {
        RoundHere(x);
        NearestMonotone(x, y);
      }
    }
  }

  /** Scaling by 2^5, 2^10 and 2^20 commutes with rounding, too. */
  lemma RoundShifted(x: real)
    requires x >= 0.0
    ensures Round(32.0 * x) == 32.0 * Round(x)
    ensures Round(1024.0 * x) == 1024.0 * Round(x)
    ensures Round(1048576.0 * x) == 1048576.0 * Round(x)
  {
    hide Round;
    RoundFive(x);
    RoundFive(32.0 * x);
    RoundFive(1024.0 * x);
    RoundFive(32768.0 * x);
  }

  lemma RoundFive(x: real)
    requires x >= 0.0
    ensures Round(32.0 * x) == 32.0 * Round(x)
  {
    hide Round;
    RoundTwice(x);
    RoundTwice(2.0 * x);
    RoundTwice(4.0 * x);
    RoundTwice(8.0 * x);
    RoundTwice(16.0 * x);
  }

  // ---------- rounded to nearest ----------

  /** `y` is a whole number when scaled to 53 digits before the point. */
  predicate IsDouble(y: real)
    requires y >= 0.0
    decreases Distance(y)
  {
    if y == 0.0 then true
    else if y >= HIGH then
      HalfIsNearer(y);
      IsDouble(y / 2.0)
    else if y < LOW then
      DoubleIsNearer(y);
      IsDouble(2.0 * y)
    else y == y.Floor as real
  }

  lemma DoubleTwice(y: real)
    requires y >= 0.0
    ensures IsDouble(2.0 * y) == IsDouble(y)
  {
    assert 2.0 * y / 2.0 == y;
  }

  /** Rounding gives a double. */
  lemma {:induction false} RoundIsDouble(x: real)
    requires x >= 0.0
    ensures Round(x) >= 0.0 && IsDouble(Round(x))
    decreases Distance(x)
  {
    hide IsDouble, Distance, Nearest;
    if x >= HIGH {
      HalfIsNearer(x);
      RoundIsDouble(x / 2.0);
      DoubleTwice(Round(x / 2.0));
    } else if 0.0 < x < LOW {
      DoubleIsNearer(x);
      RoundIsDouble(2.0 * x);
      DoubleTwice(Round(2.0 * x) / 2.0);
    } else {
      WholeIsDouble(x);
    }
  }

  lemma WholeIsDouble(x: real)
    requires x == 0.0 || LOW <= x < HIGH
    ensures Round(x) >= 0.0 && IsDouble(Round(x))
  {
    if x != 0.0 {
      var n := Nearest(x);
      assert LOW <= n as real <= HIGH;
      if n as real == HIGH {
        assert HIGH / 2.0 == LOW && IsDouble(LOW);
      }
    }
  }

  /** No whole number is nearer. */
  lemma NearestExact(x: real, k: int)
    ensures var n := Nearest(x) as real;
            (if n >= x then n - x else x - n) <= (if k as real >= x then k as real - x else x - k as real)
  {
    var f := x.Floor;
    if k <= f {
      assert k as real <= f as real;
    } else {
      assert k as real >= f as real + 1.0;
    }
  }

  /** Of two equally near the even one is taken. */
  lemma NearestTie(f: int)
    ensures Nearest(f as real + 0.5) == if f % 2 == 0 then f else f + 1
  {
    assert (f as real + 0.5).Floor == f;
  }

  /** No double is nearer. */
  lemma {:induction false} RoundNearest(x: real, y: real)
    requires x >= 0.0 && y >= 0.0 && IsDouble(y)
    ensures var r := Round(x); (if r >= x then r - x else x - r) <= (if y >= x then y - x else x - y)
    decreases Distance(x)
  {
    hide Round, IsDouble, Distance, Nearest;
    if x >= HIGH {
      HalfIsNearer(x);
      DoubleTwice(y / 2.0);
      RoundNearest(x / 2.0, y / 2.0);
      RoundTwice(x / 2.0);
    } else if 0.0 < x < LOW {
      DoubleIsNearer(x);
      DoubleTwice(y);
      RoundNearest(2.0 * x, 2.0 * y);
      RoundTwice(x);
    } else if x > 0.0 {
      RoundHere(x);
      var k := if y < LOW then 4503599627370496 else if y >= HIGH then 9007199254740992 else y.Floor;
      WholeDouble(y);
      NearestExact(x, k);
    } else {
      assert Round(0.0) == 0.0 by { RoundZero(); }
    }
  }

  lemma WholeDouble(y: real)
    requires LOW <= y < HIGH ==> IsDouble(y)
    ensures LOW <= y < HIGH ==> y == y.Floor as real
  {}

  lemma RoundZero()
    ensures Round(0.0) == 0.0
  {}
}
