/**
 Ratio ceilings in floating point: measured quotients, the ten-thousandths `_ceil_ratio` of
 `scripts/check_comment_budget.py` rounds them up to, and how the two compare.
 */
module RatioGrid {
  import opened Doubles

  function Quotient(a: nat, b: nat): (q: real)
    requires b > 0
    ensures q >= 0.0
  {
    a as real / b as real
  }

  /** The float nearest to a comment-to-code ratio; no code counts as one line. */
  function Measured(lines: nat, code: nat): (x: real)
    ensures x >= 0.0
  {
    var q := Quotient(lines, Per(code));
    RoundMonotone(0.0, q);
    Round(q)
  }

  function Per(code: nat): (b: nat)
    ensures b > 0
  {
    if code != 0 then code else 1
  }

  /** A file without code counts its comment lines as its ratio. */
  lemma MeasuredExact(lines: nat, code: nat)
    ensures Measured(lines, code) == Round(if code > 0 then Quotient(lines, code) else lines as real)
  {
    hide Round;
    assert lines as real / 1.0 == lines as real;
  }

  function Ceil(x: real): (k: int)
    ensures x <= k as real < x + 1.0
  {
    -((-x).Floor)
  }

  /** The ratio recorded as `k` ten-thousandths. */
  function Grid(k: nat): (x: real)
    ensures x >= 0.0
  {
    RoundMonotone(0.0, k as real / 10000.0);
    Round(k as real / 10000.0)
  }

  /** `math.ceil(value * 10000)`. */
  function CeilIndex(x: real): nat
    requires x >= 0.0
  {
    RoundMonotone(0.0, x * 10000.0);
    Ceil(Round(x * 10000.0))
  }

  /** `_ceil_ratio`. */
  function CeilRatio(x: real): (r: real)
    requires x >= 0.0
    ensures r >= 0.0
  {
    Grid(CeilIndex(x))
  }

  /** Scaling this ceiling back to its index rounds it up past the index. */
  predicate RoundsUp(k: nat) {
    Round(Grid(k) * 10000.0) > k as real
  }

  /** More comment lines than a tree holds, and few enough for their ratios to be told apart. */
  const MANY: nat := 0x40_0000_0000

  // ---------- how close the roundings are ----------

  /** `y` is `x` up to one part in 2^53. */
  ghost predicate Close(x: real, y: real) {
    (y - x) * HIGH <= x && (x - y) * HIGH <= x
  }

  /** A quotient `a / c`, rounded, scaled and rounded again, is less than `1 / c` off. */
  lemma ScaledError(a: real, c: real, q: real, r: real, w: real)
    requires c > 0.0 && 0.0 <= a <= MANY as real && q >= 0.0 && q * c == a
    requires Close(q, r) && Close(10000.0 * r, w)
    ensures -1.0 < (w - 10000.0 * q) * c < 1.0
  {
    var e := w - 10000.0 * q;
    assert e * HIGH <= 30000.0 * q && -e * HIGH <= 30000.0 * q;
    assert (30000.0 * q - e * HIGH) * c >= 0.0 && (30000.0 * q + e * HIGH) * c >= 0.0;
    assert (30000.0 * q - e * HIGH) * c == 30000.0 * a - (e * c) * HIGH;
    assert (30000.0 * q + e * HIGH) * c == 30000.0 * a + (e * c) * HIGH;
  }

  /** So the scaled value is on the side of every integer it should be on. */
  lemma ScaledSide(lines: nat, code: nat, k: nat)
    requires lines <= MANY
    ensures var w := Round(Measured(lines, code) * 10000.0);
            var c := Per(code);
            && (10000 * lines < k * c ==> w < k as real)
            && (10000 * lines > k * c ==> w > k as real)
            && (10000 * lines == k * c ==> k as real - 1.0 < w < k as real + 1.0)
  {
    hide Round;
    var a, c, q, r := lines as real, Per(code) as real, Quotient(lines, Per(code)), Measured(lines, code);
    var w := Round(r * 10000.0);
    RoundClose(q);
    RoundClose(r * 10000.0);
    assert q * c == a;
    ScaledError(a, c, q, r, w);
    var kc := (k * Per(code)) as real;
    assert kc == k as real * c;
    assert (w - k as real) * c == (w - 10000.0 * q) * c + 10000.0 * a - kc;
    Sides(w - k as real, c, 10000.0 * a - kc);
  }

  lemma Sides(d: real, c: real, s: real)
    requires c >= 1.0 && s - 1.0 < d * c < s + 1.0
    ensures s <= -1.0 ==> d < 0.0
    ensures s >= 1.0 ==> d > 0.0
    ensures s == 0.0 ==> -1.0 < d < 1.0
  {
    if d >= 1.0 {
      assert d * c >= 1.0;
    }
    if d <= -1.0 {
      assert d * c <= -1.0;
    }
  }

  /** Fractions that differ are rounded to floats that differ, in the same order. */
  lemma RoundedApart(a: real, c: real, q: real, p: real, r: real, g: real)
    requires c > 0.0 && 0.0 <= a <= MANY as real && q * c == a && 0.0 <= p && a - p * c >= 0.0001
    requires Close(q, r) && Close(p, g)
    ensures r > g
  {
    var d := (q - p) * HIGH - (q + p);
    assert d * c == (a - p * c) * HIGH - (a + p * c);
    assert d * c > 0.0;
    assert d > 0.0;
  }

  /** Fractions compare as their cross products do. */
  lemma CrossProducts(a: nat, b: nat, k: nat)
    requires b > 0
    ensures var q, p, c := Quotient(a, b), k as real / 10000.0, b as real;
            && q * c == a as real
            && (10000 * a < k * b ==> q < p)
            && (10000 * a == k * b ==> q == p)
            && (10000 * a > k * b ==> a as real - p * c >= 0.0001)
  {
    var q, p, c := Quotient(a, b), k as real / 10000.0, b as real;
    var kb := k * b;
    assert kb as real == k as real * c;
    assert q * c == a as real && 10000.0 * (p * c) == kb as real;
    assert (p - q) * c == p * c - a as real;
  }

  /** A measured ratio is within a recorded ceiling exactly when the fractions compare so. */
  lemma WithinExact(lines: nat, code: nat, k: nat)
    requires lines <= MANY
    ensures Measured(lines, code) <= Grid(k) <==> 10000 * lines <= k * Per(code)
    ensures 10000 * lines == k * Per(code) ==> Measured(lines, code) == Grid(k)
  {
    hide Round, Quotient, Per;
    var q, p := Quotient(lines, Per(code)), k as real / 10000.0;
    CrossProducts(lines, Per(code), k);
    if 10000 * lines <= k * Per(code) {
      RoundMonotone(q, p);
    } else {
      RoundClose(q);
      RoundClose(p);
      RoundedApart(lines as real, Per(code) as real, q, p, Measured(lines, code), Grid(k));
    }
  }

  /** Distinct indices are recorded as distinct ratios, in order. */
  lemma GridOrder(j: nat, k: nat)
    requires j < 0x10_0000_0000_0000
    ensures Grid(j) <= Grid(k) <==> j <= k
  {
    hide Round;
    if j <= k {
      RoundMonotone(j as real / 10000.0, k as real / 10000.0);
    } else {
      RoundClose(j as real / 10000.0);
      RoundClose(k as real / 10000.0);
    }
  }

  lemma GridGrows(k: nat)
    requires k <= 10001 * MANY
    ensures Grid(k) <= Grid(k + 1)
  {
    hide Grid;
    GridOrder(k, k + 1);
  }

  // ---------- rounding up ----------

  /** A ceiling is never below the ratio it is made from, and is above a recorded one that the
      ratio respects only where the ratio meets that one exactly and scaling rounds it up: then
      it is the next. */
  lemma CeilRatioExact(lines: nat, code: nat, k: nat)
    requires lines <= MANY && k <= 10001 * MANY
    ensures var x := Measured(lines, code);
            && x <= CeilRatio(x)
            && (x <= Grid(k) <==> CeilRatio(x) <= Grid(k) || (x == Grid(k) && RoundsUp(k)))
            && (x == Grid(k) && RoundsUp(k) ==> CeilRatio(x) == Grid(k + 1) > Grid(k))
  {
    hide Round, Grid, Measured;
    var x := Measured(lines, code);
    var w := Round(x * 10000.0);
    var n := CeilIndex(x);
    ScaledSide(lines, code, n);
    WithinExact(lines, code, n);
    ScaledSide(lines, code, k);
    WithinExact(lines, code, k);
    assert n <= k <==> w <= k as real;
    GridOrder(k, n);
    GridOrder(k + 1, k);
    if n <= k {
      GridOrder(n, k);
    }
  }

  lemma AtLeast(k: nat, b: nat)
    requires b > 0
    ensures k * b >= k
  {}

  /** Every recorded ceiling is a number of ten-thousandths. */
  lemma CeilIndexBound(lines: nat, code: nat)
    requires lines <= MANY
    ensures CeilIndex(Measured(lines, code)) <= 10001 * MANY
  {
    hide Round, Measured, Per;
    var k := 10000 * lines + 1;
    ScaledSide(lines, code, k);
    AtLeast(k, Per(code));
  }

  /** 0.0051 is recorded as itself, and read back as something above 51 ten-thousandths. */
  lemma FiftyOneRoundsUp()
    ensures RoundsUp(51)
  {
    hide Round;
    var x := 51.0 / 10000.0;
    RoundShifted(x);
    RoundShifted(1048576.0 * x);
    RoundShifted(1099511627776.0 * x);
    RoundHere(1152921504606846976.0 * x);
    assert Nearest(1152921504606846976.0 * x) == 5879899673494920;
    assert Grid(51) == 5879899673494920.0 / 1152921504606846976.0;
    var y := Grid(51) * 10000.0;
    RoundShifted(y);
    RoundShifted(1048576.0 * y);
    RoundShifted(1099511627776.0 * y);
    RoundTwice(35184372088832.0 * y);
    RoundTwice(70368744177664.0 * y);
    RoundHere(140737488355328.0 * y);
    assert Nearest(140737488355328.0 * y) == 7177611906121729;
  }

  /** 203 lines on 40000 are recorded as 0.0051. */
  lemma RecordedAs51()
    ensures CeilRatio(Measured(203, 40000)) == Grid(51)
  {
    hide Measured, Grid, Round, Per;
    assert Per(40000) == 40000 by { PerCode(40000); }
    ScaledSide(203, 40000, 51);
    ScaledSide(203, 40000, 50);
  }

  lemma PerCode(code: nat)
    requires code > 0
    ensures Per(code) == code
  {}
}
