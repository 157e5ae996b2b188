/**
 * The axial mesh planner of the reactor sweep: the mandatory boundary planes,
 * the global step size and the sequence of axial positions marched through.
 *
 * Every length is an integer number of picometres (1e-12 m). The source rounds
 * every position to 12 decimals, so on this grid its arithmetic is exact.
 */
module AxialMesh {
  import opened Common

  /** One metre, in picometres. */
  const Metre: int := 1_000_000_000_000
  /** One micrometre, the grid the required step is floored to. */
  const Micrometre: int := 1_000_000
  /** The 0.01 m accuracy ceiling applied to the required step. */
  const AccuracyCeiling: int := 10_000_000_000

  /** np.around(x, 12) for a length x in metres, as picometres. */
  function Round12(x: real): (n: int)
    ensures (n as real) - x * 1_000_000_000_000.0 <= 0.5
    ensures x * 1_000_000_000_000.0 - (n as real) <= 0.5
  {
    RoundHalfEven(x * 1_000_000_000_000.0)
  }

  /** The lower and upper plane of one axial region of an assembly type (metres). */
  datatype RegionSpec = RegionSpec(zLo: real, zHi: real)

  function Flatten(ss: seq<seq<real>>): (r: seq<real>)
    ensures forall x :: x in r <==> exists i :: 0 <= i < |ss| && x in ss[i]
  {
    if ss == [] then []
    else
      var rest := Flatten(ss[1..]);
      assert forall i :: 1 <= i < |ss| ==> ss[i] == ss[1..][i - 1];
      ss[0] + rest
  }

  /** Both planes of every region of one assembly type, region by region. */
  function TypePlanes(regions: seq<RegionSpec>): (r: seq<real>)
    ensures forall x :: x in r <==> exists j :: 0 <= j < |regions| && (x == regions[j].zLo || x == regions[j].zHi)
  {
    if regions == [] then []
    else
      assert forall j :: 1 <= j < |regions| ==> regions[j] == regions[1..][j - 1];
      [regions[0].zLo, regions[0].zHi] + TypePlanes(regions[1..])
  }

  /** The region planes of every assembly type, type by type. */
  function RegionPlanes(regions: seq<seq<RegionSpec>>): (r: seq<real>)
    ensures forall x :: x in r <==> exists i :: 0 <= i < |regions| && x in TypePlanes(regions[i])
  {
    if regions == [] then []
    else
      assert forall i :: 1 <= i < |regions| ==> regions[i] == regions[1..][i - 1];
      TypePlanes(regions[0]) + RegionPlanes(regions[1..])
  }

  /** The flux-solver fine mesh converted from centimetres to metres holds exactly the scaled planes. */
  lemma ScaledPlanes(cm: seq<real>)
    ensures forall x :: x in ScaleSeq(cm, 0.01) <==> exists y :: y in cm && x == y * 0.01
  {
    var m := ScaleSeq(cm, 0.01);
    forall x | x in m ensures exists y :: y in cm && x == y * 0.01 {
      var i :| 0 <= i < |m| && m[i] == x;
      var y := cm[i];
      assert y in cm && x == y * 0.01;
    }
    forall x, y | y in cm && x == y * 0.01 ensures x in m {
      var i :| 0 <= i < |cm| && cm[i] == y;
      assert m[i] == x;
    }
  }

  /**
   * Every candidate plane in metres, in the order the source accumulates them:
   * the flux-solver fine mesh (given in cm), each user power profile's fine mesh,
   * both planes of every axial region of every assembly type, and the user's
   * requested axial planes.
   */
  function CandidatePlanes(dif3dCm: Option<seq<real>>, userZfm: Option<seq<seq<real>>>,
                           regions: seq<seq<RegionSpec>>, planes: Option<seq<real>>): (r: seq<real>)
    ensures forall x :: x in r <==>
      || (dif3dCm.Some? && exists y :: y in dif3dCm.value && x == y * 0.01)
      || (userZfm.Some? && exists i :: 0 <= i < |userZfm.value| && x in userZfm.value[i])
      || (exists i :: 0 <= i < |regions| && x in TypePlanes(regions[i]))
      || (planes.Some? && x in planes.value)
  {
    ScaledPlanes(if dif3dCm.Some? then dif3dCm.value else []);
    (if dif3dCm.Some? then ScaleSeq(dif3dCm.value, 0.01) else [])
    + (if userZfm.Some? then Flatten(userZfm.value) else [])
    + RegionPlanes(regions)
    + (if planes.Some? then planes.value else [])
  }

  /** Insert `x` into a strictly increasing sequence, unless it is already there. */
  function Insert(x: int, s: seq<int>): (r: seq<int>)
    requires StrictlyIncreasing(s)
    ensures StrictlyIncreasing(r)
    ensures forall y :: y in r <==> y == x || y in s
  {
    if s == [] then [x]
    else if x < s[0] then [x] + s
    else if x == s[0] then s
    else
      var rest := Insert(x, s[1..]);
      assert forall y :: y in rest ==> s[0] < y by {
        forall y | y in s[1..] ensures s[0] < y {
          var k :| 0 <= k < |s| - 1 && s[1..][k] == y;
          assert s[k + 1] == y;
        }
      }
      ConsIncreasing(s[0], rest);
      [s[0]] + rest
  }

  /** A value below every element of a strictly increasing sequence can be put in front of it. */
  lemma ConsIncreasing(a: int, rest: seq<int>)
    requires StrictlyIncreasing(rest)
    requires forall y :: y in rest ==> a < y
    ensures StrictlyIncreasing([a] + rest)
  {
    var r := [a] + rest;
    forall i, j | 0 <= i < j < |r| ensures r[i] < r[j] {
      assert r[j] == rest[j - 1] && rest[j - 1] in rest;
      if i > 0 {
        assert r[i] == rest[i - 1];
      }
    }
  }

  /** np.unique: the distinct values, ascending. */
  function SortedUnique(s: seq<int>): (r: seq<int>)
    ensures StrictlyIncreasing(r)
    ensures forall y :: y in r <==> y in s
  {
    if s == [] then []
    else
      var rest := SortedUnique(s[1..]);
      assert forall y :: y in s <==> y == s[0] || y in s[1..];
      Insert(s[0], rest)
  }

  function RoundAll(xs: seq<real>): (r: seq<int>)
    ensures |r| == |xs|
    ensures forall i :: 0 <= i < |xs| ==> r[i] == Round12(xs[i])
  {
    seq(|xs|, i requires 0 <= i < |xs| => Round12(xs[i]))
  }

  /** The rounded values are exactly the roundings of the inputs. */
  lemma RoundAllImage(xs: seq<real>)
    ensures forall b :: b in RoundAll(xs) <==> exists x :: x in xs && b == Round12(x)
  {
    var rounded := RoundAll(xs);
    forall b | b in rounded ensures exists x :: x in xs && b == Round12(x) {
      var i :| 0 <= i < |rounded| && rounded[i] == b;
      assert xs[i] in xs;
    }
    forall x | x in xs ensures Round12(x) in rounded {
      var i :| 0 <= i < |xs| && xs[i] == x;
      assert rounded[i] == Round12(x);
    }
  }

  /** The last element of a strictly increasing sequence is its largest. */
  lemma LastIsMax(s: seq<int>)
    requires StrictlyIncreasing(s) && |s| > 0
    ensures forall b :: b in s ==> b <= s[|s| - 1]
  {
    forall b | b in s ensures b <= s[|s| - 1] {
      var i :| 0 <= i < |s| && s[i] == b;
    }
  }

  /** The mandatory axial boundaries and the core length, or None where the source fails. */
  datatype Bounds = Bounds(planes: seq<int>, coreLength: int)

  /**
   * `_setup_axial_region_bnds`: round every candidate plane to 12 decimals, drop
   * duplicates and sort; the core length is the last (largest) boundary. With no
   * candidate at all the source fails indexing the empty array: None.
   */
  function AxialRegionBounds(dif3dCm: Option<seq<real>>, userZfm: Option<seq<seq<real>>>,
                             regions: seq<seq<RegionSpec>>, planes: Option<seq<real>>): (r: Option<Bounds>)
    ensures r.None? <==> |CandidatePlanes(dif3dCm, userZfm, regions, planes)| == 0
    ensures r.Some? ==>
      var cand := CandidatePlanes(dif3dCm, userZfm, regions, planes);
      && StrictlyIncreasing(r.value.planes)
      && (forall b :: b in r.value.planes <==> exists x :: x in cand && b == Round12(x))
      && r.value.coreLength in r.value.planes
      && (forall b :: b in r.value.planes ==> b <= r.value.coreLength)
  {
    var cand := CandidatePlanes(dif3dCm, userZfm, regions, planes);
    var rounded := RoundAll(cand);
    var bnds := SortedUnique(rounded);
    if |cand| == 0 then None
    else
      assert rounded[0] in bnds;
      RoundAllImage(cand);
      LastIsMax(bnds);
      Some(Bounds(bnds, bnds[|bnds| - 1]))
  }

  /** The per-assembly step requirement (metres) floored to the micrometre, in picometres. */
  function FlooredMin(minDz: seq<real>): int
    requires |minDz| > 0
  {
    (Min(minDz) * 1_000_000.0).Floor * Micrometre
  }

  /**
   * `_setup_overall_axial_mesh_req`: the global step size. np.min of an empty list
   * raises, hence None. A user step size is adopted exactly when it is no larger
   * than the floored requirement; only otherwise is the 0.01 m ceiling applied.
   */
  function OverallReqDz(minDz: seq<real>, meshSize: Option<int>): (r: Option<int>)
    ensures r.None? <==> |minDz| == 0
    ensures r.Some? && meshSize.Some? && meshSize.value <= FlooredMin(minDz) ==>
      r.value == meshSize.value
    ensures r.Some? && !(meshSize.Some? && meshSize.value <= FlooredMin(minDz)) ==>
      r.value <= AccuracyCeiling && r.value <= FlooredMin(minDz) &&
      (r.value == AccuracyCeiling || r.value == FlooredMin(minDz))
    // numerical stability: the step never exceeds any assembly's own requirement
    ensures r.Some? ==> forall d :: d in minDz ==> (r.value as real) <= d * 1_000_000_000_000.0
    // the planner can march: a positive step unless the requirement is below one micrometre
    ensures r.Some? && Min(minDz) >= 0.000001 &&
      (meshSize.Some? && meshSize.value <= FlooredMin(minDz) ==> meshSize.value > 0)
      ==> r.value > 0
  {
    if |minDz| == 0 then None
    else
      var req := FlooredMin(minDz);
      var m := Min(minDz);
      assert (req as real) <= m * 1_000_000_000_000.0 by {
        assert ((m * 1_000_000.0).Floor as real) <= m * 1_000_000.0;
      }
      assert m >= 0.000001 ==> req >= Micrometre by {
        if m >= 0.000001 {
          assert m * 1_000_000.0 >= 1.0;
        }
      }
      if meshSize.Some? && meshSize.value <= req then Some(meshSize.value)
      else if req > AccuracyCeiling then Some(AccuracyCeiling)
      else Some(req)
  }

  /** A step from z of length req would cross boundary b. */
  predicate Crosses(b: int, z: int, req: int)
  {
    z < b && z + req > b
  }

  /** The index of the first boundary, in list order, that a step would cross; -1 if none. */
  function FirstCrossing(bnds: seq<int>, z: int, req: int): (k: int)
    ensures -1 <= k < |bnds|
    ensures k == -1 <==> forall i :: 0 <= i < |bnds| ==> !Crosses(bnds[i], z, req)
    ensures k >= 0 ==> Crosses(bnds[k], z, req)
    ensures k >= 0 ==> forall j :: 0 <= j < k ==> !Crosses(bnds[j], z, req)
  {
    if bnds == [] then -1
    else if Crosses(bnds[0], z, req) then 0
    else
      var k := FirstCrossing(bnds[1..], z, req);
      if k == -1 then -1 else k + 1
  }

  /**
   * `_check_dz`: the step from z, truncated so that it lands on the first
   * boundary it would otherwise cross. What the truncation achieves is stated
   * by CheckDzTruncates.
   */
  function CheckDz(bnds: seq<int>, z: int, req: int): (dz: int)
    ensures req > 0 ==> 0 < dz <= req
  {
    var k := FirstCrossing(bnds, z, req);
    if k < 0 then req else bnds[k] - z
  }

  /**
   * The full step is taken exactly when no boundary lies strictly inside it;
   * otherwise the step ends on a boundary, and on sorted boundaries on the
   * nearest one, so no boundary is ever jumped over.
   */
  lemma CheckDzTruncates(bnds: seq<int>, z: int, req: int)
    ensures (forall b :: b in bnds ==> !Crosses(b, z, req)) ==> CheckDz(bnds, z, req) == req
    ensures (exists b :: b in bnds && Crosses(b, z, req)) ==>
      0 < CheckDz(bnds, z, req) < req && z + CheckDz(bnds, z, req) in bnds
    ensures StrictlyIncreasing(bnds) ==>
      forall b :: b in bnds ==> !(z < b < z + CheckDz(bnds, z, req))
  {
    var k := FirstCrossing(bnds, z, req);
    if k >= 0 && StrictlyIncreasing(bnds) {
      forall j | 0 <= j < |bnds| ensures !(z < bnds[j] < bnds[k]) {
        if j < k {
          assert !Crosses(bnds[j], z, req);
        } else {
          assert bnds[k] <= bnds[j];
        }
      }
    }
  }

  function Last(s: seq<int>): int
    requires |s| > 0
  {
    s[|s| - 1]
  }

  /**
   * z and dz form a march from 0 in which every step is the one CheckDz chooses,
   * and every step starts below the core length.
   */
  ghost predicate Marched(bnds: seq<int>, coreLength: int, req: int, z: seq<int>, dz: seq<int>)
  {
    && |z| == |dz| + 1 && z[0] == 0
    && (forall i :: 0 <= i < |dz| ==> dz[i] == CheckDz(bnds, z[i], req))
    && (forall i :: 0 <= i < |dz| ==> z[i + 1] == z[i] + dz[i] && z[i] < coreLength)
  }

  /**
   * `_setup_zpts`: march from 0 in steps chosen by CheckDz until the core length is
   * reached; z holds the positions and dz the steps between them.
   */
  method MeshPoints(bnds: seq<int>, coreLength: int, req: int) returns (z: seq<int>, dz: seq<int>)
    requires req > 0
    ensures Marched(bnds, coreLength, req, z, dz)
    ensures Last(z) >= coreLength
    ensures coreLength >= 0 && coreLength in bnds && (forall b :: b in bnds ==> b <= coreLength) ==>
      Last(z) == coreLength
  {
    z, dz := [0], [];
    ghost var lands := coreLength >= 0 && coreLength in bnds && (forall b :: b in bnds ==> b <= coreLength);
    while Last(z) < coreLength
      invariant Marched(bnds, coreLength, req, z, dz)
      invariant lands ==> Last(z) <= coreLength
      decreases coreLength - Last(z)
    {
      var cur := Last(z);
      var step := CheckDz(bnds, cur, req);
      StepStaysInCore(bnds, coreLength, cur, req);
      dz := dz + [step];
      z := z + [cur + step];
    }
  }

  /**
   * The march as written, for a step of zero or less: no crossing is possible, so
   * CheckDz returns the step itself and no position ever rises above the inlet.
   * For a core of positive length the loop condition of `_setup_zpts` therefore
   * stays true on every march, and the source loops for ever.
   */
  lemma {:induction false} NonPositiveStepStalls(bnds: seq<int>, coreLength: int, req: int, z: seq<int>, dz: seq<int>)
    requires req <= 0
    requires Marched(bnds, coreLength, req, z, dz)
    ensures forall i :: 0 <= i < |dz| ==> dz[i] == req
    ensures forall i :: 0 <= i < |z| ==> z[i] <= 0
    ensures coreLength > 0 ==> Last(z) < coreLength
  {
    if |dz| > 0 {
      var n := |dz| - 1;
      NonPositiveStepStalls(bnds, coreLength, req, z[..n + 1], dz[..n]);
      assert FirstCrossing(bnds, z[n], req) == -1 by {
        assert forall i :: 0 <= i < |bnds| ==> !Crosses(bnds[i], z[n], req);
      }
      assert forall i :: 0 <= i < n + 1 ==> z[i] == z[..n + 1][i];
    }
  }

  /**
   * An assembly that needs a step below one micrometre: the required step floors
   * to 0, and with no user size the planner keeps it, so the march stands still.
   */
  lemma SubMicrometreRequirementStalls(bnds: seq<int>, coreLength: int)
    requires coreLength > 0
    ensures OverallReqDz([0.0000005], None) == Some(0)
    ensures CheckDz(bnds, 0, 0) == 0
    ensures Marched(bnds, coreLength, 0, [0, 0], [0]) && Last([0, 0]) < coreLength
  {
    assert Min([0.0000005]) == 0.0000005;
    assert FlooredMin([0.0000005]) == 0 by {
      assert (0.0000005 * 1_000_000.0).Floor == 0;
    }
    assert FirstCrossing(bnds, 0, 0) == -1 by {
      assert forall i :: 0 <= i < |bnds| ==> !Crosses(bnds[i], 0, 0);
    }
  }

  /**
   * The planner with the stall removed: the global step when it is positive, and
   * a refusal (None) when there is no requirement or the step is zero or less.
   */
  function PlannedStep(minDz: seq<real>, meshSize: Option<int>): (r: Option<int>)
    ensures r.Some? ==> r.value > 0 && OverallReqDz(minDz, meshSize) == r
    ensures r.None? <==> OverallReqDz(minDz, meshSize).None? || OverallReqDz(minDz, meshSize).value <= 0
    // every requirement of at least a micrometre, with any user size positive, is planned
    ensures |minDz| > 0 && Min(minDz) >= 0.000001 && (meshSize.Some? ==> meshSize.value > 0) ==> r.Some?
  {
    var step := OverallReqDz(minDz, meshSize);
    if step.Some? && step.value > 0 then step else None
  }

  /**
   * The corrected planner end to end: the step of PlannedStep, and the march that
   * then reaches the core length, landing on it when it is the largest boundary.
   */
  method PlanMesh(bnds: seq<int>, coreLength: int, minDz: seq<real>, meshSize: Option<int>)
    returns (ok: bool, z: seq<int>, dz: seq<int>)
    ensures ok <==> PlannedStep(minDz, meshSize).Some?
    ensures ok ==> Marched(bnds, coreLength, PlannedStep(minDz, meshSize).value, z, dz)
    ensures ok ==> Last(z) >= coreLength
    ensures ok && coreLength >= 0 && coreLength in bnds && (forall b :: b in bnds ==> b <= coreLength) ==>
      Last(z) == coreLength
    ensures !ok ==> z == [0] && dz == []
  {
    var step := PlannedStep(minDz, meshSize);
    if step.None? {
      return false, [0], [];
    }
    ok := true;
    z, dz := MeshPoints(bnds, coreLength, step.value);
  }

  /** The positions of a march rise strictly, each step in (0, req]. */
  lemma {:induction false} MarchIncreases(bnds: seq<int>, coreLength: int, req: int, z: seq<int>, dz: seq<int>)
    requires req > 0
    requires Marched(bnds, coreLength, req, z, dz)
    ensures forall i :: 0 <= i < |dz| ==> 0 < dz[i] <= req
    ensures StrictlyIncreasing(z)
  {
    if |dz| > 0 {
      var n := |dz| - 1;
      MarchIncreases(bnds, coreLength, req, z[..n + 1], dz[..n]);
      assert forall i :: 0 <= i < n ==> z[i] < z[n] by {
        assert StrictlyIncreasing(z[..n + 1]);
      }
    }
  }

  /** On sorted boundaries no step of a march straddles a boundary. */
  lemma MarchNeverStraddles(bnds: seq<int>, coreLength: int, req: int, z: seq<int>, dz: seq<int>)
    requires StrictlyIncreasing(bnds)
    requires Marched(bnds, coreLength, req, z, dz)
    ensures forall i, b :: 0 <= i < |dz| && b in bnds ==> !(z[i] < b < z[i + 1])
  {
    forall i | 0 <= i < |dz| ensures forall b :: b in bnds ==> !(z[i] < b < z[i + 1]) {
      CheckDzTruncates(bnds, z[i], req);
    }
  }

  /**
   * The planned mesh: strictly increasing from 0, ending exactly at the core length,
   * and containing every boundary plane in (0, core length] as a mesh point.
   */
  lemma PlannedMeshHitsEveryBoundary(bnds: seq<int>, coreLength: int, req: int, z: seq<int>, dz: seq<int>)
    requires req > 0 && StrictlyIncreasing(bnds)
    requires coreLength >= 0 && coreLength in bnds && (forall b :: b in bnds ==> b <= coreLength)
    requires Marched(bnds, coreLength, req, z, dz) && Last(z) == coreLength
    ensures StrictlyIncreasing(z)
    ensures forall b :: b in bnds && 0 < b ==> b in z
  {
    MarchIncreases(bnds, coreLength, req, z, dz);
    MarchNeverStraddles(bnds, coreLength, req, z, dz);
    EveryBoundaryIsMeshPoint(z, dz, bnds);
  }

  /** A step taken below the core length does not overshoot it. */
  lemma StepStaysInCore(bnds: seq<int>, coreLength: int, z: int, req: int)
    requires req > 0 && z < coreLength
    ensures coreLength in bnds && (forall b :: b in bnds ==> b <= coreLength) ==>
      z + CheckDz(bnds, z, req) <= coreLength
  {
    CheckDzTruncates(bnds, z, req);
    if coreLength in bnds && z + req > coreLength {
      assert Crosses(coreLength, z, req);
    }
  }

  /**
   * A mesh from 0 that never straddles a boundary contains every boundary it
   * reaches: each boundary in (0, last] is one of its positions.
   */
  lemma {:induction false} EveryBoundaryIsMeshPoint(z: seq<int>, dz: seq<int>, bnds: seq<int>)
    requires |z| == |dz| + 1 && z[0] == 0
    requires forall i :: 0 <= i < |dz| ==> z[i + 1] == z[i] + dz[i] && dz[i] > 0
    requires forall i, b :: 0 <= i < |dz| && b in bnds ==> !(z[i] < b < z[i + 1])
    ensures forall b :: b in bnds && 0 < b <= Last(z) ==> b in z
  {
    if |dz| > 0 {
      var z', dz' := z[..|z| - 1], dz[..|dz| - 1];
      EveryBoundaryIsMeshPoint(z', dz', bnds);
      forall b | b in bnds && 0 < b <= Last(z) ensures b in z {
        var n := |dz| - 1;
        if b <= Last(z') {
          assert b in z';
        } else {
          assert !(z[n] < b < z[n + 1]);
          assert b == Last(z);
        }
      }
    }
  }
}
