/**
 * np.interp(x, xp, fp) over exact reals: piecewise-linear interpolation through the points
 * (xp[i], fp[i]), held constant at fp[0] left of xp[0] and at the last fp right of the last xp.
 */
module Interpolation {
  import opened Ordering

  /** The interpolated value at one abscissa x. */
  function InterpAt(x: real, xp: seq<real>, fp: seq<real>): (y: real)
    requires |xp| == |fp| >= 1
    decreases |xp|
  {
    if x <= xp[0] || |xp| == 1 then fp[0]
    else if x <= xp[1] then fp[0] + (x - xp[0]) * (fp[1] - fp[0]) / (xp[1] - xp[0])
    else InterpAt(x, xp[1..], fp[1..])
  }

  /** np.interp on a list of abscissae: one value per entry of x. */
  function Interp(x: seq<real>, xp: seq<real>, fp: seq<real>): (ys: seq<real>)
    requires |xp| == |fp| >= 1
    ensures |ys| == |x|
    ensures forall k :: 0 <= k < |x| ==> ys[k] == InterpAt(x[k], xp, fp)
  {
    seq(|x|, k requires 0 <= k < |x| => InterpAt(x[k], xp, fp))
  }

  /** Left of the first point the value is held at fp[0]. */
  lemma InterpClampsLeft(x: real, xp: seq<real>, fp: seq<real>)
    requires |xp| == |fp| >= 1 && x <= xp[0]
    ensures InterpAt(x, xp, fp) == fp[0]
  {
  }

  /** Right of the last point of an increasing xp the value is held at the last fp. */
  lemma {:induction false} InterpClampsRight(x: real, xp: seq<real>, fp: seq<real>)
    requires |xp| == |fp| >= 1 && StrictlyIncreasing(xp) && x >= xp[|xp| - 1]
    ensures InterpAt(x, xp, fp) == fp[|fp| - 1]
    decreases |xp|
  {
    if |xp| > 1 {
      if x <= xp[1] {
        assert |xp| == 2;
      } else {
        assert xp[0] < xp[|xp| - 1] <= x;
        InterpClampsRight(x, xp[1..], fp[1..]);
      }
    }
  }

  /** At a point of an increasing xp the interpolant passes through that point's value. */
  lemma {:induction false} InterpAtKnot(xp: seq<real>, fp: seq<real>, i: nat)
    requires |xp| == |fp| && i < |xp| && StrictlyIncreasing(xp)
    ensures InterpAt(xp[i], xp, fp) == fp[i]
    decreases i
  {
    if i == 1 {
      assert xp[0] < xp[1];
      assert (xp[1] - xp[0]) * (fp[1] - fp[0]) / (xp[1] - xp[0]) == fp[1] - fp[0];
    } else if i > 1 {
      assert xp[0] < xp[1] < xp[i];
      assert xp[1..][i - 1] == xp[i] && fp[1..][i - 1] == fp[i];
      InterpAtKnot(xp[1..], fp[1..], i - 1);
    }
  }

  /** Between two neighbouring points the value lies between theirs. */
  lemma {:induction false} InterpBetweenNeighbours(x: real, xp: seq<real>, fp: seq<real>, i: nat)
    requires |xp| == |fp| && i + 1 < |xp| && StrictlyIncreasing(xp)
    requires xp[i] <= x <= xp[i + 1]
    ensures var y := InterpAt(x, xp, fp);
      (fp[i] <= y <= fp[i + 1]) || (fp[i + 1] <= y <= fp[i])
    decreases i
  {
    if i == 0 {
      assert xp[0] < xp[1];
      InterpOnFirstSegment(x, xp, fp);
    } else {
      assert xp[0] < xp[i] <= x;
      if x <= xp[1] {
        assert i == 1 && x == xp[1];
        InterpAtKnot(xp, fp, 1);
      } else {
        assert xp[1..][i - 1] == xp[i] && xp[1..][i] == xp[i + 1];
        InterpBetweenNeighbours(x, xp[1..], fp[1..], i - 1);
      }
    }
  }

  lemma InterpOnFirstSegment(x: real, xp: seq<real>, fp: seq<real>)
    requires |xp| == |fp| >= 2 && xp[0] <= x <= xp[1] && xp[0] < xp[1]
    ensures var y := InterpAt(x, xp, fp);
      (fp[0] <= y <= fp[1]) || (fp[1] <= y <= fp[0])
  {
    if x > xp[0] {
      assert InterpAt(x, xp, fp) == fp[0] + (x - xp[0]) * (fp[1] - fp[0]) / (xp[1] - xp[0]);
      SegmentValue(x, xp[0], xp[1], fp[0], fp[1]);
    } else {
      assert InterpAt(x, xp, fp) == fp[0];
    }
  }

  /** A point of the segment from (x0, f0) to (x1, f1) has its value between f0 and f1. */
  lemma SegmentValue(x: real, x0: real, x1: real, f0: real, f1: real)
    requires x0 < x <= x1
    ensures var y := f0 + (x - x0) * (f1 - f0) / (x1 - x0);
      (f0 <= y <= f1) || (f1 <= y <= f0)
  {
    var t := (x - x0) / (x1 - x0);
    FractionInUnit(x - x0, x1 - x0);
    assert (x - x0) * (f1 - f0) / (x1 - x0) == t * (f1 - f0);
    ScaleByFraction(t, f1 - f0);
  }

  lemma FractionInUnit(a: real, d: real)
    requires 0.0 <= a <= d && 0.0 < d
    ensures 0.0 <= a / d <= 1.0
  {
    assert a / d * d == a;
  }

  lemma ScaleByFraction(t: real, d: real)
    requires 0.0 <= t <= 1.0
    ensures d >= 0.0 ==> 0.0 <= t * d <= d
    ensures d <= 0.0 ==> d <= t * d <= 0.0
  {
    assert d - t * d == (1.0 - t) * d;
  }

  /** Interpolating a grid onto itself gives the values back. */
  lemma InterpOntoOwnGrid(xp: seq<real>, fp: seq<real>)
    requires |xp| == |fp| >= 1 && StrictlyIncreasing(xp)
    ensures Interp(xp, xp, fp) == fp
  {
    forall k | 0 <= k < |xp| ensures Interp(xp, xp, fp)[k] == fp[k] {
      InterpAtKnot(xp, fp, k);
    }
  }
}
