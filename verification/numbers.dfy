/** Numeric helpers: Python's `int()` on a float, and the unit draws that
    stand for numpy's global random stream. */
module Numbers {

  function Min(a: real, b: real): real { if a <= b then a else b }

  function Max(a: real, b: real): real { if a <= b then b else a }

  /** Python `int(x)` on a float: truncation toward zero. */
  function Trunc(x: real): (t: int)
    ensures 0.0 <= x ==> t as real <= x < t as real + 1.0
    ensures x < 0.0 ==> t as real - 1.0 < x <= t as real
  {
    if x >= 0.0 then x.Floor else -((-x).Floor)
  }

  /** Truncation is monotone, so it preserves "lies between". */
  lemma TruncMonotone(x: real, y: real)
    requires x <= y
    ensures Trunc(x) <= Trunc(y)
  {
    if x >= 0.0 {
      assert x.Floor <= y.Floor;
    } else if y < 0.0 {
      assert (-y).Floor <= (-x).Floor;
    }
  }

  lemma MulNonneg(x: real, y: real)
    requires x >= 0.0 && y >= 0.0
    ensures x * y >= 0.0
  {
  }

  lemma MulPos(x: real, y: real)
    requires x > 0.0 && y > 0.0
    ensures x * y > 0.0
  {
  }

  /** A factor above one enlarges a positive width. */
  lemma MulAboveOne(t: real, w: real)
    requires t > 1.0 && w > 0.0
    ensures t * w > w
  {
    MulPos(t - 1.0, w);
    assert (t - 1.0) * w == t * w - w;
  }

  /** Scaling a width by a factor in [0, 1] stays within the width. */
  lemma ScaleBounds(a: real, t: real, d: real)
    requires a >= 0.0 && 0.0 <= t <= 1.0 && d == a * t
    ensures 0.0 <= d <= a
    ensures a > 0.0 && t < 1.0 ==> d < a
  {
    MulNonneg(a, t);
    MulNonneg(a, 1.0 - t);
    assert a * (1.0 - t) == a - d;
    if a > 0.0 && t < 1.0 { MulPos(a, 1.0 - t); }
  }

  /** Linear interpolation `a + t * (b - a)`: numpy's `uniform(a, b)` for a
      unit draw `t`, and the complexity blend for `t = sample / total`. */
  function Lerp(a: real, b: real, t: real): (x: real)
    ensures t == 0.0 ==> x == a
    ensures t == 1.0 ==> x == b
    ensures a == b ==> x == a
    ensures 0.0 <= t <= 1.0 ==> Min(a, b) <= x <= Max(a, b)
    ensures 0.0 <= t < 1.0 && a < b ==> a <= x < b
  {
    LerpBounds(a, b, t, t * (b - a));
    a + t * (b - a)
  }

  lemma LerpBounds(a: real, b: real, t: real, d: real)
    requires d == t * (b - a)
    ensures 0.0 <= t <= 1.0 ==> Min(a, b) <= a + d <= Max(a, b)
    ensures 0.0 <= t < 1.0 && a < b ==> a <= a + d < b
  {
    if 0.0 <= t <= 1.0 {
      if a <= b {
        ScaleBounds(b - a, t, d);
      } else {
        assert t * (a - b) == -d;
        ScaleBounds(a - b, t, -d);
      }
    }
  }

  /** One value of numpy's `random()`: a real in the half-open unit interval. */
  type Unit = r: real | 0.0 <= r < 1.0

  /** The integer a unit draw selects among `k` equally likely outcomes. */
  function Below(r: Unit, k: nat): (i: nat)
    requires k > 0
    ensures i < k
  {
    assert 0.0 <= r * k as real < k as real;
    (r * k as real).Floor
  }

  /** Every outcome below `k` is selected by some draw. */
  lemma BelowReachesEvery(k: nat, i: nat)
    requires i < k
    ensures exists r: Unit :: Below(r, k) == i
  {
    var r: Unit := i as real / k as real;
    assert r * k as real == i as real;
    assert Below(r, k) == i;
  }
}
