/** Contour tiers: which line style a contour is drawn in, from the integer
    part of its elevation (master every 25, normal every 5, form otherwise). */
module Tiers {
  import opened Geometry

  /** A contour as read from the contour shapefile: its elevation and its
      vertices. */
  datatype Contour = Contour(elevation: real, polyline: seq<Point>)

  /** How `render_contours_to_png` treats a contour. `Skipped` is a contour
      with fewer than two vertices, which is never drawn. */
  datatype Tier = Skipped | Master | Normal | Form

  const I32Min: int := -0x8000_0000
  const I32Max: int := 0x7FFF_FFFF

  /** Rust's `f64 as i32`: truncation toward zero, saturating at the bounds
      of `i32`. */
  function TruncateToI32(e: real): (n: int)
    ensures I32Min <= n <= I32Max
    ensures I32Min as real <= e <= I32Max as real ==> (n as real) <= e < (n + 1) as real || (n - 1) as real < e <= n as real
    ensures 0.0 <= e ==> 0 <= n && (n as real) <= e
    ensures e <= 0.0 ==> n <= 0 && e <= n as real
    ensures I32Max as real <= e ==> n == I32Max
    ensures e <= I32Min as real ==> n == I32Min
  {
    var t := if 0.0 <= e then e.Floor else -((-e).Floor);
    if t < I32Min then I32Min else if t > I32Max then I32Max else t
  }

  /** Rust's `%` on integers: the remainder takes the sign of the dividend. */
  function RustRem(a: int, b: int): (r: int)
    requires b > 0
    ensures 0 <= a ==> 0 <= r < b
    ensures a <= 0 ==> -b < r <= 0
    ensures (a - r) % b == 0
  {
    if 0 <= a then
      var q := a / b;
      MultipleHasNoRemainder(b, q);
      assert a - a % b == b * q;
      a % b
    else
      var q := (-a) / b;
      MultipleHasNoRemainder(b, -q);
      assert a - -((-a) % b) == b * (-q);
      -((-a) % b)
  }

  /** A multiple of `b` leaves no remainder. */
  lemma MultipleHasNoRemainder(b: int, q: int)
    requires b > 0
    ensures (b * q) % b == 0
  {
    var m := b * q;
    var k := q - m / b;
    assert m == b * (m / b) + m % b;
    assert b * k == m % b;
    if k > 0 {
      ProductAtLeast(b, k);
    } else if k < 0 {
      ProductAtLeast(b, -k);
    }
  }

  /** A positive multiple of `b` is at least `b`. */
  lemma {:induction false} ProductAtLeast(b: int, k: int)
    requires b > 0 && k >= 1
    ensures b * k >= b
    decreases k
  {
    if k > 1 {
      ProductAtLeast(b, k - 1);
      assert b * k == b * (k - 1) + b;
    }
  }

  /** Testing for a zero remainder gives the same answer under Rust's
      truncated remainder and Dafny's Euclidean one. */
  lemma RemainderZeroAgrees(a: int)
    ensures RustRem(a, 5) == 0 <==> a % 5 == 0
    ensures RustRem(a, 25) == 0 <==> a % 25 == 0
  {
    if a < 0 {
      if a % 5 == 0 { NegatedMultipleOf5(a); }
      if (-a) % 5 == 0 { NegatedMultipleOf5(-a); }
      if a % 25 == 0 { NegatedMultipleOf25(a); }
      if (-a) % 25 == 0 { NegatedMultipleOf25(-a); }
    }
  }

  /** Negating a multiple of 5 gives a multiple of 5. */
  lemma NegatedMultipleOf5(a: int)
    requires a % 5 == 0
    ensures (-a) % 5 == 0
  {
    var q := a / 5;
    assert -a == 5 * (-q);
  }

  /** Negating a multiple of 25 gives a multiple of 25. */
  lemma NegatedMultipleOf25(a: int)
    requires a % 25 == 0
    ensures (-a) % 25 == 0
  {
    var q := a / 25;
    assert -a == 25 * (-q);
  }

  /** Every multiple of 25 is a multiple of 5. */
  lemma MultipleOf25IsMultipleOf5(n: int)
    ensures n % 25 == 0 ==> n % 5 == 0
  {
    if n % 25 == 0 {
      var q := n / 25;
      assert n == 5 * (5 * q);
    }
  }

  /** The normal-contour test: the elevation, truncated to an `i32`, leaves
      no remainder when divided by 5. */
  predicate IsNormalContour(c: Contour) {
    RustRem(TruncateToI32(c.elevation), 5) == 0
  }

  /** The master-contour test: the truncated elevation leaves no remainder
      when divided by 25. */
  predicate IsMasterContour(c: Contour) {
    RustRem(TruncateToI32(c.elevation), 25) == 0
  }

  /** The two tier tests are divisibility tests on the truncated elevation,
      whatever its sign. */
  lemma TierTestsAreDivisibility(c: Contour)
    ensures IsNormalContour(c) <==> TruncateToI32(c.elevation) % 5 == 0
    ensures IsMasterContour(c) <==> TruncateToI32(c.elevation) % 25 == 0
  {
    RemainderZeroAgrees(TruncateToI32(c.elevation));
  }

  /** The tier chosen by the drawing loop: short contours are skipped before
      the tier is looked at, then the master test comes before the normal
      one. Only form contours go through `keep_relevant_form_contours`. */
  function ContourTier(c: Contour): (t: Tier)
    ensures t == Skipped <==> |c.polyline| < 2
    ensures t == Master <==> |c.polyline| >= 2 && TruncateToI32(c.elevation) % 25 == 0
    ensures t == Normal <==> |c.polyline| >= 2 && TruncateToI32(c.elevation) % 25 != 0
                               && TruncateToI32(c.elevation) % 5 == 0
    ensures t == Form <==> |c.polyline| >= 2 && TruncateToI32(c.elevation) % 5 != 0
  {
    RemainderZeroAgrees(TruncateToI32(c.elevation));
    MultipleOf25IsMultipleOf5(TruncateToI32(c.elevation));
    if |c.polyline| < 2 then Skipped
    else if IsMasterContour(c) then Master
    else if IsNormalContour(c) then Normal
    else Form
  }

  /** Every master elevation is also a normal elevation: the normal style is
      shadowed by the master test that comes first. */
  lemma MasterIsAlsoNormal(c: Contour)
    requires IsMasterContour(c)
    ensures IsNormalContour(c)
  {
    RemainderZeroAgrees(TruncateToI32(c.elevation));
    MultipleOf25IsMultipleOf5(TruncateToI32(c.elevation));
  }

  /** The tier depends on the elevation only through its truncated integer
      part. */
  lemma TierUsesIntegerPart(c: Contour, d: Contour)
    requires |c.polyline| == |d.polyline|
    requires TruncateToI32(c.elevation) == TruncateToI32(d.elevation)
    ensures ContourTier(c) == ContourTier(d)
  {
  }

  /** Worked cases: 25, 0 and -25 are master lines; 10 is a normal line;
      2307.5 is truncated to 2307 and -2.5 to -2, both form lines. */
  lemma TierExamples(pl: seq<Point>)
    requires |pl| >= 2
    ensures ContourTier(Contour(25.0, pl)) == Master
    ensures ContourTier(Contour(0.0, pl)) == Master
    ensures ContourTier(Contour(-25.0, pl)) == Master
    ensures ContourTier(Contour(10.0, pl)) == Normal
    ensures TruncateToI32(2307.5) == 2307 && ContourTier(Contour(2307.5, pl)) == Form
    ensures TruncateToI32(-2.5) == -2 && ContourTier(Contour(-2.5, pl)) == Form
  {
  }
}
