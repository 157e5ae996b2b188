/**
 * Remapping of a temperature profile sampled around a hexagonal perimeter from
 * one side discretization onto another (`approximate_temps`).
 *
 * A profile holds the six sides one after the other; each side lists its samples
 * in order and ends at its corner. Positions `x` are those of one side, shared by
 * all six. The Legendre least-squares fit and its evaluation are numerical library
 * calls; they enter as the parameter `fit`, which gives the fitted value at one
 * target position from the source positions and one side's samples.
 */
module Perimeter {
  import opened Common

  type Fit = (seq<real>, seq<real>, real) -> real

  /** The side before side s, cyclically (np.roll by one). */
  function Prev(s: nat): (p: nat)
    requires s < 6
    ensures p < 6 && (p + 1) % 6 == s
  {
    if s == 0 then 5 else s - 1
  }

  /** k * w, by repeated addition. */
  function Offset(w: nat, k: nat): nat
  {
    if k == 0 then 0 else Offset(w, k - 1) + w
  }

  lemma {:induction false} OffsetProduct(w: nat, k: nat)
    ensures Offset(w, k) == k * w
  {
    if k > 0 {
      OffsetProduct(w, k - 1);
    }
  }

  /** The first k consecutive blocks of w samples of y (a reshape into k rows). */
  function Chop(y: seq<real>, w: nat, k: nat): seq<seq<real>>
  {
    if k == 0 || |y| < w then [] else [y[..w]] + Chop(y[w..], w, k - 1)
  }

  /** A profile long enough for k blocks of w chops into k rows of w. */
  lemma {:induction false} ChopShape(y: seq<real>, w: nat, k: nat)
    requires Offset(w, k) <= |y|
    ensures |Chop(y, w, k)| == k
    ensures forall i :: 0 <= i < k ==> |Chop(y, w, k)[i]| == w
  {
    if k > 0 {
      ChopShape(y[w..], w, k - 1);
      var rows := Chop(y, w, k);
      assert rows == [y[..w]] + Chop(y[w..], w, k - 1);
      forall i | 0 <= i < k ensures |rows[i]| == w {
        if i > 0 {
          assert rows[i] == Chop(y[w..], w, k - 1)[i - 1];
        }
      }
    }
  }

  /** Flattening rows of width w and chopping the result into blocks of w gives the rows back. */
  lemma {:induction false} ChopConcat(rows: seq<seq<real>>, w: nat)
    requires forall i :: 0 <= i < |rows| ==> |rows[i]| == w
    ensures |Concat(rows)| == Offset(w, |rows|)
    ensures Chop(Concat(rows), w, |rows|) == rows
  {
    if rows != [] {
      var tail := rows[1..];
      ChopConcat(tail, w);
      var c := Concat(rows);
      assert c == rows[0] + Concat(tail);
      assert c[..w] == rows[0];
      assert c[w..] == Concat(tail);
      assert rows == [rows[0]] + tail;
    }
  }

  /** Chopping a profile of exactly k blocks of w and flattening the blocks gives the profile back. */
  lemma {:induction false} ConcatChop(y: seq<real>, w: nat, k: nat)
    requires |y| == Offset(w, k)
    ensures Concat(Chop(y, w, k)) == y
  {
    if k > 0 {
      ConcatChop(y[w..], w, k - 1);
      var rows := Chop(y, w, k);
      assert rows[0] == y[..w];
      assert rows[1..] == Chop(y[w..], w, k - 1);
      assert y == y[..w] + y[w..];
    }
  }

  /** Chopped into blocks of one, row i is the single sample y[i]. */
  lemma {:induction false} UnitChop(y: seq<real>, k: nat)
    requires |y| == k
    ensures |Chop(y, 1, k)| == k
    ensures forall i :: 0 <= i < k ==> Chop(y, 1, k)[i] == [y[i]]
  {
    if k > 0 {
      UnitChop(y[1..], k - 1);
      var rows := Chop(y, 1, k);
      assert rows == [y[..1]] + Chop(y[1..], 1, k - 1);
      forall i | 0 <= i < k ensures rows[i] == [y[i]] {
        if i > 0 {
          assert rows[i] == Chop(y[1..], 1, k - 1)[i - 1];
        }
      }
    }
  }

  /** The six sides of a profile (the reshape to six rows; samples past 6 * (|y| / 6) are not part of any side). */
  function Sides(y: seq<real>): (sides: seq<seq<real>>)
    ensures |sides| == 6
    ensures forall s :: 0 <= s < 6 ==> |sides[s]| == |y| / 6
  {
    OffsetProduct(|y| / 6, 6);
    ChopShape(y, |y| / 6, 6);
    Chop(y, |y| / 6, 6)
  }

  /** Reshaping a whole profile into six sides and flattening them gives the profile back. */
  lemma ReshapeRoundTrip(y: seq<real>)
    requires |y| % 6 == 0
    ensures Concat(Sides(y)) == y
  {
    OffsetProduct(|y| / 6, 6);
    ConcatChop(y, |y| / 6, 6);
  }

  /** The corner of side s: its last sample. */
  function Corner(y: seq<real>, s: nat): real
    requires |y| >= 6 && s < 6
  {
    Sides(y)[s][|y| / 6 - 1]
  }

  /** The reshaped profile: one row per side, each prefixed with the previous side's corner. */
  function Dressed(y: seq<real>): (ym: seq<seq<real>>)
    requires |y| >= 6
    ensures |ym| == 6
    ensures forall s :: 0 <= s < 6 ==> |ym[s]| == |y| / 6 + 1
    ensures forall s :: 0 <= s < 6 ==> ym[s][0] == Corner(y, Prev(s)) && ym[s][1..] == Sides(y)[s]
    ensures forall s :: 0 <= s < 6 ==> ym[s][|ym[s]| - 1] == Corner(y, s)
  {
    seq(6, s requires 0 <= s < 6 => [Corner(y, Prev(s))] + Sides(y)[s])
  }

  /** np.linspace(a, b, n)[k]. */
  function Lerp(a: real, b: real, n: nat, k: nat): real
  {
    if n <= 1 then a else a + (k as real) * (b - a) / ((n - 1) as real)
  }

  /** np.linspace(a, b, n) without its first point. */
  function Ramp(a: real, b: real, n: nat): (r: seq<real>)
    requires n >= 1
    ensures |r| == n - 1
  {
    seq(n - 1, j requires 0 <= j < n - 1 => Lerp(a, b, n, j + 1))
  }

  /** Every row without its first entry. */
  function Tails(rows: seq<seq<real>>): (tails: seq<seq<real>>)
    requires forall s :: 0 <= s < |rows| ==> |rows[s]| >= 1
    ensures |tails| == |rows| && forall s :: 0 <= s < |rows| ==> tails[s] == rows[s][1..]
  {
    seq(|rows|, s requires 0 <= s < |rows| => rows[s][1..])
  }

  /** Drop every row's prepended first entry, then flatten. */
  function DropFirstAndFlatten(rows: seq<seq<real>>): seq<real>
    requires forall s :: 0 <= s < |rows| ==> |rows[s]| >= 1
  {
    Concat(Tails(rows))
  }

  /** Six rows of width w + 1, dropped and flattened, give six sides of w: each row without its first entry. */
  lemma SidesOfDropped(rows: seq<seq<real>>, w: nat)
    requires |rows| == 6 && forall s :: 0 <= s < 6 ==> |rows[s]| == w + 1
    ensures |DropFirstAndFlatten(rows)| == 6 * w
    ensures Sides(DropFirstAndFlatten(rows)) == Tails(rows)
  {
    ChopConcat(Tails(rows), w);
    OffsetProduct(w, 6);
  }

  /** After dropping first entries and flattening, the corner of side s is the last entry of row s. */
  lemma DroppedCorners(rows: seq<seq<real>>, w: nat)
    requires |rows| == 6 && forall s :: 0 <= s < 6 ==> |rows[s]| == w + 1
    requires w >= 1
    ensures |DropFirstAndFlatten(rows)| == 6 * w
    ensures forall s :: 0 <= s < 6 ==> Corner(DropFirstAndFlatten(rows), s) == rows[s][w]
  {
    SidesOfDropped(rows, w);
  }

  /** Linear interpolation between each side's two first dressed values (source mesh is corners only). */
  function LinearRows(ym: seq<seq<real>>, n: nat): (rows: seq<seq<real>>)
    requires |ym| == 6 && forall s :: 0 <= s < 6 ==> |ym[s]| >= 2
    ensures |rows| == 6 && forall s :: 0 <= s < 6 ==> |rows[s]| == n
  {
    seq(6, s requires 0 <= s < 6 => seq(n, k requires 0 <= k < n => Lerp(ym[s][0], ym[s][1], n, k)))
  }

  /** The first and last dressed value of each side (target mesh is corners only). */
  function CornerRows(ym: seq<seq<real>>): (rows: seq<seq<real>>)
    requires |ym| == 6 && forall s :: 0 <= s < 6 ==> |ym[s]| >= 1
    ensures |rows| == 6 && forall s :: 0 <= s < 6 ==> rows[s] == [ym[s][0], ym[s][|ym[s]| - 1]]
  {
    seq(6, s requires 0 <= s < 6 => [ym[s][0], ym[s][|ym[s]| - 1]])
  }

  /** The fitted values at every target position, each side's last one replaced by its exact corner. */
  function FittedRows(fit: Fit, x: seq<real>, ym: seq<seq<real>>, xNew: seq<real>): (rows: seq<seq<real>>)
    requires |ym| == 6 && |xNew| > 0 && forall s :: 0 <= s < 6 ==> |ym[s]| > 0
    ensures |rows| == 6 && forall s :: 0 <= s < 6 ==> |rows[s]| == |xNew|
    ensures forall s :: 0 <= s < 6 ==> rows[s][|xNew| - 1] == ym[s][|ym[s]| - 1]
  {
    seq(6, s requires 0 <= s < 6 =>
      seq(|xNew|, k requires 0 <= k < |xNew| =>
        if k == |xNew| - 1 then ym[s][|ym[s]| - 1] else fit(x, ym[s], xNew[k])))
  }

  /**
   * The shapes `approximate_temps` can remap: y reshapes into six non-empty
   * sides, and either one mesh is corners only or the fit gets one source
   * position per dressed sample and at least one target position.
   */
  predicate Remappable(x: seq<real>, y: seq<real>, xNew: seq<real>)
  {
    |y| > 0 && |y| % 6 == 0 &&
    (|x| == 2 || |xNew| == 2 || (|x| == |y| / 6 + 1 && |xNew| > 0))
  }

  /**
   * Side by side, one row per side: linear interpolation between the two first
   * dressed values when the source mesh is corners only, else the first and last
   * dressed value when the target mesh is corners only, else the fit.
   */
  function RemappedRows(fit: Fit, x: seq<real>, ym: seq<seq<real>>, xNew: seq<real>): (rows: seq<seq<real>>)
    requires |ym| == 6 && forall s :: 0 <= s < 6 ==> |ym[s]| >= 2
    requires |xNew| > 0
    ensures |rows| == 6 && forall s :: 0 <= s < 6 ==> |rows[s]| == |xNew|
  {
    if |x| == 2 then LinearRows(ym, |xNew|)
    else if |xNew| == 2 then CornerRows(ym)
    else FittedRows(fit, x, ym, xNew)
  }

  /**
   * `approximate_temps`: the profile y on the side positions x, remapped onto the
   * positions xNew. None where the source raises: y does not reshape into six
   * non-empty sides, or the fit gets positions and samples of different lengths,
   * or there is no target position to take the corner. An empty target with a
   * corners-only source interpolates nothing and gives an empty profile.
   */
  function ApproximateTemps(fit: Fit, x: seq<real>, y: seq<real>, xNew: seq<real>): (r: Option<seq<real>>)
    ensures x == xNew ==> r == Some(y)
    ensures x != xNew ==> (r.Some? <==>
      |y| > 0 && |y| % 6 == 0 &&
      (|x| == 2 || |xNew| == 2 || (|x| == |y| / 6 + 1 && |xNew| > 0)))
  {
    if x == xNew then Some(y)
    else if !Remappable(x, y, xNew) then None
    else if |xNew| == 0 then Some([])
    else Some(DropFirstAndFlatten(RemappedRows(fit, x, Dressed(y), xNew)))
  }

  /** Outside the identity case, a successful remap with a target is the flattened remapped rows. */
  lemma ApproximateTempsFlattensRows(fit: Fit, x: seq<real>, y: seq<real>, xNew: seq<real>)
    requires Remappable(x, y, xNew) && |xNew| > 0 && x != xNew
    ensures ApproximateTemps(fit, x, y, xNew) == Some(DropFirstAndFlatten(RemappedRows(fit, x, Dressed(y), xNew)))
  {
  }

  /** np.linspace(a, b, n) starts at a and ends at b. */
  lemma LerpEnds(a: real, b: real, n: nat)
    requires n >= 2
    ensures Lerp(a, b, n, 0) == a && Lerp(a, b, n, n - 1) == b
  {
    var d := (n - 1) as real;
    assert d * (b - a) / d == b - a;
  }

  /** Interpolated rows end at the second dressed value of their side. */
  lemma LinearRowsEnd(ym: seq<seq<real>>, n: nat)
    requires |ym| == 6 && forall s :: 0 <= s < 6 ==> |ym[s]| >= 2
    requires n >= 2
    ensures forall s :: 0 <= s < 6 ==> LinearRows(ym, n)[s][n - 1] == ym[s][1]
  {
    forall s | 0 <= s < 6 ensures LinearRows(ym, n)[s][n - 1] == ym[s][1] {
      LerpEnds(ym[s][0], ym[s][1], n);
    }
  }

  /**
   * Whichever branch built them, the remapped rows end at the last dressed value
   * of their side (the interpolation needs rows of exactly two dressed values).
   */
  lemma RowsEndAtCorners(fit: Fit, x: seq<real>, ym: seq<seq<real>>, xNew: seq<real>)
    requires |ym| == 6 && forall s :: 0 <= s < 6 ==> |ym[s]| >= 2
    requires |x| == 2 ==> forall s :: 0 <= s < 6 ==> |ym[s]| == 2
    requires |xNew| >= 2
    ensures forall s :: 0 <= s < 6 ==>
      RemappedRows(fit, x, ym, xNew)[s][|xNew| - 1] == ym[s][|ym[s]| - 1]
  {
    if |x| == 2 {
      LinearRowsEnd(ym, |xNew|);
    }
  }

  /** A well-formed profile for side positions x: six sides of |x| - 1 samples each. */
  predicate WellFormed(x: seq<real>, y: seq<real>)
  {
    |x| >= 2 && |y| == 6 * (|x| - 1)
  }

  /**
   * Outside the identity case a well-formed profile with a non-empty target
   * always remaps, to six sides of |xNew| - 1 samples.
   */
  lemma RemapShape(fit: Fit, x: seq<real>, y: seq<real>, xNew: seq<real>)
    requires WellFormed(x, y) && x != xNew && |xNew| >= 1
    ensures ApproximateTemps(fit, x, y, xNew).Some?
    ensures |ApproximateTemps(fit, x, y, xNew).value| == 6 * (|xNew| - 1)
  {
    assert |y| / 6 == |x| - 1 && |y| % 6 == 0;
    ApproximateTempsFlattensRows(fit, x, y, xNew);
    SidesOfDropped(RemappedRows(fit, x, Dressed(y), xNew), |xNew| - 1);
  }

  /** Dropped and flattened, the remapped rows have the dressed rows' last entries as corners. */
  lemma RemappedCorners(fit: Fit, x: seq<real>, ym: seq<seq<real>>, xNew: seq<real>)
    requires |ym| == 6 && forall s :: 0 <= s < 6 ==> |ym[s]| >= 2
    requires |x| == 2 ==> forall s :: 0 <= s < 6 ==> |ym[s]| == 2
    requires |xNew| >= 2
    ensures |DropFirstAndFlatten(RemappedRows(fit, x, ym, xNew))| == 6 * (|xNew| - 1)
    ensures forall s :: 0 <= s < 6 ==>
      Corner(DropFirstAndFlatten(RemappedRows(fit, x, ym, xNew)), s) == ym[s][|ym[s]| - 1]
  {
    RowsEndAtCorners(fit, x, ym, xNew);
    DroppedCorners(RemappedRows(fit, x, ym, xNew), |xNew| - 1);
  }

  /**
   * Remapping a well-formed profile onto at least two positions keeps every
   * side's corner exactly, whichever branch (interpolation, corner extraction
   * or fit) produced the side.
   */
  lemma CornersPreserved(fit: Fit, x: seq<real>, y: seq<real>, xNew: seq<real>)
    requires WellFormed(x, y) && x != xNew && |xNew| >= 2
    ensures ApproximateTemps(fit, x, y, xNew).Some?
    ensures |ApproximateTemps(fit, x, y, xNew).value| >= 6
    ensures forall s :: 0 <= s < 6 ==>
      Corner(ApproximateTemps(fit, x, y, xNew).value, s) == Corner(y, s)
  {
    assert |y| / 6 == |x| - 1 && |y| % 6 == 0;
    ApproximateTempsFlattensRows(fit, x, y, xNew);
    RemappedCorners(fit, x, Dressed(y), xNew);
  }

  /** Without its first point, each interpolated row is the ramp between its side's two first dressed values. */
  lemma LinearTails(ym: seq<seq<real>>, n: nat)
    requires |ym| == 6 && forall s :: 0 <= s < 6 ==> |ym[s]| >= 2
    requires n >= 1
    ensures forall s :: 0 <= s < 6 ==> Tails(LinearRows(ym, n))[s] == Ramp(ym[s][0], ym[s][1], n)
  {
  }

  /**
   * Corners-only source: side s becomes the linear ramp from the corner of the
   * previous side to the first sample of side s, taken at the target positions
   * after the first; with one sample per side, that sample is the corner itself.
   */
  lemma TwoPointSourceIsLinearRamp(fit: Fit, x: seq<real>, y: seq<real>, xNew: seq<real>)
    requires |x| == 2 && |y| > 0 && |y| % 6 == 0 && x != xNew && |xNew| >= 1
    ensures ApproximateTemps(fit, x, y, xNew).Some?
    ensures forall s :: 0 <= s < 6 ==>
      Sides(ApproximateTemps(fit, x, y, xNew).value)[s] == Ramp(Corner(y, Prev(s)), Sides(y)[s][0], |xNew|)
    ensures |y| == 6 ==> forall s :: 0 <= s < 6 ==>
      Sides(ApproximateTemps(fit, x, y, xNew).value)[s] == Ramp(Corner(y, Prev(s)), Corner(y, s), |xNew|)
  {
    var ym := Dressed(y);
    var rows := RemappedRows(fit, x, ym, xNew);
    ApproximateTempsFlattensRows(fit, x, y, xNew);
    SidesOfDropped(rows, |xNew| - 1);
    LinearTails(ym, |xNew|);
    forall s | 0 <= s < 6 ensures ym[s][1] == Sides(y)[s][0] {
      assert ym[s][1..] == Sides(y)[s];
    }
  }

  /** Six rows of two entries, dropped and flattened, are their six second entries. */
  lemma DroppedPairs(rows: seq<seq<real>>)
    requires |rows| == 6 && forall s :: 0 <= s < 6 ==> |rows[s]| == 2
    ensures DropFirstAndFlatten(rows) == [rows[0][1], rows[1][1], rows[2][1], rows[3][1], rows[4][1], rows[5][1]]
  {
    var r := DropFirstAndFlatten(rows);
    SidesOfDropped(rows, 1);
    UnitChop(r, 6);
    forall s | 0 <= s < 6 ensures r[s] == rows[s][1] {
      assert [r[s]] == Sides(r)[s] == rows[s][1..];
    }
  }

  /** Corners-only target: the result is exactly the six source corners, side by side. */
  lemma TwoPointTargetIsCorners(fit: Fit, x: seq<real>, y: seq<real>, xNew: seq<real>)
    requires |y| > 0 && |y| % 6 == 0 && |x| != 2 && |xNew| == 2 && x != xNew
    ensures ApproximateTemps(fit, x, y, xNew) ==
      Some([Corner(y, 0), Corner(y, 1), Corner(y, 2), Corner(y, 3), Corner(y, 4), Corner(y, 5)])
  {
    var ym := Dressed(y);
    var rows := RemappedRows(fit, x, ym, xNew);
    assert rows == CornerRows(ym);
    ApproximateTempsFlattensRows(fit, x, y, xNew);
    DroppedPairs(rows);
  }

  /**
   * General case: away from its corner, side s of the result holds the fit of
   * the dressed side s evaluated at the target positions after the first.
   */
  lemma FittedInterior(fit: Fit, x: seq<real>, y: seq<real>, xNew: seq<real>)
    requires |y| > 0 && |y| % 6 == 0 && |x| == |y| / 6 + 1 && |x| != 2
    requires |xNew| > 2 && x != xNew
    ensures ApproximateTemps(fit, x, y, xNew).Some?
    ensures |ApproximateTemps(fit, x, y, xNew).value| == 6 * (|xNew| - 1)
    ensures forall s, k :: 0 <= s < 6 && 0 <= k < |xNew| - 2 ==>
      Sides(ApproximateTemps(fit, x, y, xNew).value)[s][k] == fit(x, Dressed(y)[s], xNew[k + 1])
  {
    var rows := RemappedRows(fit, x, Dressed(y), xNew);
    ApproximateTempsFlattensRows(fit, x, y, xNew);
    SidesOfDropped(rows, |xNew| - 1);
  }
}
