/**
 * The stateful rules of the reactor sweep: assembly power normalisation, the
 * temperature reset, the low-flow convection approximation, the dump decision,
 * the progress counter and the order in which one axial step updates the gap
 * and the assemblies.
 *
 * Lengths are integer picometres, as in AxialMesh. The collaborators the sweep
 * calls into (the gap and assembly solvers, the minimum-step estimate, the
 * progress log) are outside this model: the solvers and the log only record
 * that they were called, the step estimate is a parameter.
 */
module Reactor {
  import opened Common
  import AxialMesh
  import Perimeter

  // ---------------------------------------------------------------------
  // Power normalisation (`_setup_scale_asm_power`)
  // ---------------------------------------------------------------------

  /** One assembly's power: component profiles by name, the average profile, the total. */
  datatype AsmPower = AsmPower(profiles: map<string, seq<real>>, avg: seq<real>, total: real)

  function ScaleProfiles(m: map<string, seq<real>>, f: real): (r: map<string, seq<real>>)
    ensures r.Keys == m.Keys
    ensures forall k :: k in m ==> r[k] == ScaleSeq(m[k], f)
  {
    map k | k in m :: ScaleSeq(m[k], f)
  }

  /** Every profile, the average profile and the total of one assembly scaled by f. */
  function ScalePower(p: AsmPower, f: real): AsmPower
  {
    AsmPower(ScaleProfiles(p.profiles, f), ScaleSeq(p.avg, f), p.total * f)
  }

  function ScaleAll(ps: seq<AsmPower>, f: real): (r: seq<AsmPower>)
    ensures |r| == |ps| && forall i :: 0 <= i < |ps| ==> r[i] == ScalePower(ps[i], f)
  {
    seq(|ps|, i requires 0 <= i < |ps| => ScalePower(ps[i], f))
  }

  function Totals(ps: seq<AsmPower>): (t: seq<real>)
    ensures |t| == |ps| && forall i :: 0 <= i < |ps| ==> t[i] == ps[i].total
  {
    seq(|ps|, i requires 0 <= i < |ps| => ps[i].total)
  }

  /**
   * The normalisation factor: ptot_user / pcalc when a core total is requested,
   * 1 otherwise. A requested total with a zero calculated power divides by zero.
   */
  function Renorm(pcalc: real, ptotUser: real): (r: Option<real>)
    ensures r.None? <==> ptotUser != 0.0 && pcalc == 0.0
    ensures ptotUser == 0.0 ==> r == Some(1.0)
    ensures r.Some? && ptotUser != 0.0 ==> pcalc * r.value == ptotUser
  {
    if ptotUser == 0.0 then Some(1.0)
    else if pcalc == 0.0 then None
    else Some(ptotUser / pcalc)
  }

  /** The overall factor applied to every assembly: renorm * pscalar. */
  function PowerFactor(pcalc: real, ptotUser: real, pscalar: real): (f: Option<real>)
    ensures f.None? <==> Renorm(pcalc, ptotUser).None?
    ensures ptotUser == 0.0 ==> f == Some(pscalar)
    ensures f.Some? && ptotUser != 0.0 ==> pcalc * f.value == ptotUser * pscalar
  {
    match Renorm(pcalc, ptotUser)
    case None => None
    case Some(renorm) => Some(renorm * pscalar)
  }

  /** Equal factors scale alike (stated for the solver, which does not equate products itself). */
  lemma ScaleAllSameFactor(ps: seq<AsmPower>, a: real, b: real)
    requires a == b
    ensures ScaleAll(ps, a) == ScaleAll(ps, b)
  {
  }

  /** Scaling by one changes nothing. */
  lemma ScaleAllOne(ps: seq<AsmPower>)
    ensures ScaleAll(ps, 1.0) == ps
  {
    forall i | 0 <= i < |ps| ensures ScalePower(ps[i], 1.0) == ps[i] {
      var p := ps[i];
      forall k | k in p.profiles ensures ScaleSeq(p.profiles[k], 1.0) == p.profiles[k] {
        ScaleSeqOne(p.profiles[k]);
      }
      assert ScaleProfiles(p.profiles, 1.0) == p.profiles;
      ScaleSeqOne(p.avg);
    }
  }

  lemma ScaleProfilesTwice(m: map<string, seq<real>>, a: real, b: real)
    ensures ScaleProfiles(ScaleProfiles(m, a), b) == ScaleProfiles(m, a * b)
  {
    forall k | k in m ensures ScaleSeq(ScaleSeq(m[k], a), b) == ScaleSeq(m[k], a * b) {
      ScaleSeqTwice(m[k], a, b);
    }
  }

  /** Scaling by a and then by b is scaling by a * b. */
  lemma ScaleAllTwice(ps: seq<AsmPower>, a: real, b: real)
    ensures ScaleAll(ScaleAll(ps, a), b) == ScaleAll(ps, a * b)
  {
    forall i | 0 <= i < |ps| ensures ScalePower(ScalePower(ps[i], a), b) == ScalePower(ps[i], a * b) {
      ScaleProfilesTwice(ps[i].profiles, a, b);
      ScaleSeqTwice(ps[i].avg, a, b);
      assert ps[i].total * a * b == ps[i].total * (a * b);
    }
  }

  /** The assembly totals of a scaled list add up to the old sum times the factor. */
  lemma ScaledCoreTotal(ps: seq<AsmPower>, f: real)
    ensures Sum(Totals(ScaleAll(ps, f))) == Sum(Totals(ps)) * f
  {
    assert forall i :: 0 <= i < |ps| ==> Totals(ScaleAll(ps, f))[i] == ScaleSeq(Totals(ps), f)[i];
    assert Totals(ScaleAll(ps, f)) == ScaleSeq(Totals(ps), f);
    SumScale(Totals(ps), f);
  }

  /**
   * When pcalc is the sum of the assembly totals, the scaled assemblies add up to
   * the power the routine reports, and with a requested core total that power is
   * the request times the scalar.
   */
  lemma NormalisedCorePower(ps: seq<AsmPower>, pcalc: real, ptotUser: real, pscalar: real)
    requires pcalc == Sum(Totals(ps))
    requires Renorm(pcalc, ptotUser).Some?
    ensures var f := Renorm(pcalc, ptotUser).value * pscalar;
      Sum(Totals(ScaleAll(ps, f))) == pcalc * f
    ensures ptotUser != 0.0 ==> pcalc * (Renorm(pcalc, ptotUser).value * pscalar) == ptotUser * pscalar
  {
    var f := Renorm(pcalc, ptotUser).value * pscalar;
    ScaledCoreTotal(ps, f);
  }

  /** `for k in profiles.keys(): profiles[k] *= f`, one key at a time. */
  method ScaleProfileDict(m: map<string, seq<real>>, f: real) returns (r: map<string, seq<real>>)
    ensures r == ScaleProfiles(m, f)
  {
    r := m;
    var todo := m.Keys;
    while todo != {}
      invariant todo <= m.Keys && r.Keys == m.Keys
      invariant forall k :: k in m ==> r[k] == (if k in todo then m[k] else ScaleSeq(m[k], f))
      decreases todo
    {
      var k :| k in todo;
      r := r[k := ScaleSeq(r[k], f)];
      todo := todo - {k};
    }
  }

  /** One pass over the assembly list scaling every entry in place. */
  method ScalePass(plist: array<AsmPower>, f: real)
    modifies plist
    ensures plist[..] == ScaleAll(old(plist[..]), f)
  {
    var i := 0;
    while i < plist.Length
      invariant 0 <= i <= plist.Length
      invariant forall j :: 0 <= j < i ==> plist[j] == ScalePower(old(plist[j]), f)
      invariant forall j :: i <= j < plist.Length ==> plist[j] == old(plist[j])
    {
      var p := plist[i];
      var profiles := ScaleProfileDict(p.profiles, f);
      plist[i] := AsmPower(profiles, ScaleSeq(p.avg, f), p.total * f);
      i := i + 1;
    }
  }

  /**
   * `_setup_scale_asm_power`: normalise to the requested core total (if any),
   * then apply the scalar (if not 1), and report pcalc * renorm * pscalar.
   * A requested total with pcalc = 0 fails before anything is scaled.
   */
  method SetupScaleAsmPower(plist: array<AsmPower>, pcalc: real, ptotUser: real, pscalar: real)
    returns (total: Option<real>)
    modifies plist
    ensures total.None? <==> PowerFactor(pcalc, ptotUser, pscalar).None?
    ensures total.None? ==> plist[..] == old(plist[..])
    ensures total.Some? ==>
      var f := PowerFactor(pcalc, ptotUser, pscalar).value;
      total.value == pcalc * f && plist[..] == ScaleAll(old(plist[..]), f)
    ensures ptotUser == 0.0 && pscalar == 1.0 ==> plist[..] == old(plist[..])
  {
    ghost var orig := plist[..];
    var renorm := 1.0;
    if ptotUser != 0.0 {
      if pcalc == 0.0 {
        return None;
      }
      renorm := ptotUser / pcalc;
      ScalePass(plist, renorm);
    } else {
      ScaleAllOne(orig);
    }
    assert Renorm(pcalc, ptotUser).value == renorm;
    ghost var f := PowerFactor(pcalc, ptotUser, pscalar).value;
    assert f == renorm * pscalar;
    if pscalar != 1.0 {
      ScalePass(plist, pscalar);
      ScaleAllTwice(orig, renorm, pscalar);
      ScaleAllSameFactor(orig, renorm * pscalar, f);
    } else {
      ScaleAllSameFactor(orig, renorm, f);
    }
    assert plist[..] == ScaleAll(orig, f);
    total := Some(pcalc * renorm * pscalar);
    assert total.value == pcalc * f;
  }

  // ---------------------------------------------------------------------
  // Assemblies, regions and the temperature reset (`reset`)
  // ---------------------------------------------------------------------

  /** One axial region of an assembly: its temperature arrays by name and its low-flow flag. */
  datatype Region = Region(temp: map<string, seq<real>>, lowflow: bool)

  /**
   * The parts of an assembly the sweep touches: the side positions and outer duct
   * surface temperatures around its perimeter, whether it has a rod bundle, and
   * its axial regions.
   */
  datatype Assembly = Assembly(xPts: seq<real>, ductOuterTemp: seq<real>, hasRodded: bool, regions: seq<Region>)

  /** An array of n entries, all t (`a *= 0.0; a += t` on an array of length n). */
  function Filled(n: nat, t: real): (r: seq<real>)
    ensures |r| == n && forall i :: 0 <= i < n ==> r[i] == t
  {
    seq(n, _ => t)
  }

  function ResetRegion(r: Region, t: real): Region
  {
    r.(temp := map k | k in r.temp :: Filled(|r.temp[k]|, t))
  }

  function ResetAssembly(a: Assembly, t: real): Assembly
  {
    a.(regions := seq(|a.regions|, j requires 0 <= j < |a.regions| => ResetRegion(a.regions[j], t)))
  }

  /** Every region temperature array of every assembly overwritten with t. */
  function ResetAll(asms: seq<Assembly>, t: real): (r: seq<Assembly>)
    ensures |r| == |asms| && forall i :: 0 <= i < |asms| ==> r[i] == ResetAssembly(asms[i], t)
  {
    seq(|asms|, i requires 0 <= i < |asms| => ResetAssembly(asms[i], t))
  }

  /** Every entry of every region temperature array equals t. */
  ghost predicate AtTemperature(asms: seq<Assembly>, t: real)
  {
    forall i, j, k, m ::
      (0 <= i < |asms| && 0 <= j < |asms[i].regions| && k in asms[i].regions[j].temp &&
       0 <= m < |asms[i].regions[j].temp[k]|) ==> asms[i].regions[j].temp[k][m] == t
  }

  /** b differs from a at most in the values inside the region temperature arrays. */
  ghost predicate SameShape(a: seq<Assembly>, b: seq<Assembly>)
  {
    && |a| == |b|
    && (forall i :: 0 <= i < |a| ==>
          && a[i].xPts == b[i].xPts && a[i].ductOuterTemp == b[i].ductOuterTemp
          && a[i].hasRodded == b[i].hasRodded && |a[i].regions| == |b[i].regions|)
    && (forall i, j :: 0 <= i < |a| && 0 <= j < |a[i].regions| && j < |b[i].regions| ==>
          && a[i].regions[j].lowflow == b[i].regions[j].lowflow
          && a[i].regions[j].temp.Keys == b[i].regions[j].temp.Keys)
    && (forall i, j, k ::
          (0 <= i < |a| && 0 <= j < |a[i].regions| && j < |b[i].regions| &&
           k in a[i].regions[j].temp && k in b[i].regions[j].temp) ==>
          |a[i].regions[j].temp[k]| == |b[i].regions[j].temp[k]|)
  }

  /**
   * The reset state is the only state of the same shape at the inlet temperature:
   * reset keeps every array's shape, sets every entry to t, and a state of that
   * shape already at t is exactly the reset one (so resetting twice is resetting once).
   */
  lemma ResetCharacterised(asms: seq<Assembly>, t: real, other: seq<Assembly>)
    ensures SameShape(asms, ResetAll(asms, t)) && AtTemperature(ResetAll(asms, t), t)
    ensures SameShape(asms, other) && AtTemperature(other, t) ==> other == ResetAll(asms, t)
  {
    var r := ResetAll(asms, t);
    if SameShape(asms, other) && AtTemperature(other, t) {
      forall i | 0 <= i < |asms| ensures other[i] == r[i] {
        forall j | 0 <= j < |asms[i].regions| ensures other[i].regions[j] == r[i].regions[j] {
          var o, q := other[i].regions[j], r[i].regions[j];
          forall k | k in o.temp ensures o.temp[k] == q.temp[k] {
            assert |o.temp[k]| == |asms[i].regions[j].temp[k]|;
            assert forall m :: 0 <= m < |o.temp[k]| ==> o.temp[k][m] == t;
          }
          assert o.temp == q.temp;
        }
        assert other[i].regions == r[i].regions;
      }
    }
  }

  /** The key loop of `reset` for one region. */
  method ResetRegionTemps(r: Region, t: real) returns (r': Region)
    ensures r' == ResetRegion(r, t)
  {
    var temp := r.temp;
    var todo := r.temp.Keys;
    while todo != {}
      invariant todo <= r.temp.Keys && temp.Keys == r.temp.Keys
      invariant forall k :: k in r.temp ==> temp[k] == (if k in todo then r.temp[k] else Filled(|r.temp[k]|, t))
      decreases todo
    {
      var k :| k in todo;
      temp := temp[k := Filled(|temp[k]|, t)];
      todo := todo - {k};
    }
    r' := r.(temp := temp);
  }

  /** The region loop of `reset` for one assembly. */
  method ResetAssemblyTemps(a: Assembly, t: real) returns (a': Assembly)
    ensures a' == ResetAssembly(a, t)
  {
    var regions := a.regions;
    var j := 0;
    while j < |regions|
      invariant 0 <= j <= |regions| == |a.regions|
      invariant forall q :: 0 <= q < |regions| ==>
        regions[q] == (if q < j then ResetRegion(a.regions[q], t) else a.regions[q])
    {
      var r := ResetRegionTemps(regions[j], t);
      regions := regions[j := r];
      j := j + 1;
    }
    a' := a.(regions := regions);
  }

  /** Whether `_determine_whether_to_dump_data`, as a pure step: the decision and the new accumulator. */
  datatype DumpOutcome = DumpOutcome(dump: bool, acc: int)

  /** np.around(acc, 9) for a length in picometres: to the nearest nanometre, halves to even. */
  function Round9(acc: int): int
  {
    RoundHalfEven(acc as real / 1000.0) * 1000
  }

  /**
   * The dump decision at plane z after a step dz, with accumulator acc:
   * nothing happens unless some dump is requested; otherwise the step is added,
   * and the plane is written when there is no interval, when the rounded
   * accumulator has reached the interval (which restarts it at 0), or when z is
   * an axial region boundary.
   */
  function DumpDecision(any: bool, interval: Option<int>, acc: int, bnds: seq<int>, z: int, dz: int)
    : (o: DumpOutcome)
    ensures !any ==> o == DumpOutcome(false, acc)
    ensures o.dump ==> any
    ensures any && interval.None? ==> o == DumpOutcome(true, acc + dz)
    ensures any && z in bnds ==> o.dump
    ensures any ==> o.acc == 0 || o.acc == acc + dz
    ensures any && o.acc != acc + dz ==> o.dump && o.acc == 0
    ensures any && interval.Some? ==> o.acc == 0 || Round9(o.acc) < interval.value
    ensures any && interval.Some? && z !in bnds ==> (o.dump <==> Round9(acc + dz) >= interval.value)
    // reaching the interval writes and restarts; below it the step is kept, at a boundary too
    ensures any && interval.Some? && Round9(acc + dz) >= interval.value ==> o == DumpOutcome(true, 0)
    ensures any && interval.Some? && Round9(acc + dz) < interval.value ==> o.acc == acc + dz
  {
    if !any then DumpOutcome(false, acc)
    else
      var acc' := acc + dz;
      if interval.None? then DumpOutcome(true, acc')
      else if Round9(acc') >= interval.value then DumpOutcome(true, 0)
      else if z in bnds then DumpOutcome(true, acc')
      else DumpOutcome(false, acc')
  }

  /** The dump options of `_options['dump']` the decision reads: whether any dump is requested, and the interval. */
  datatype DumpOptions = DumpOptions(any: bool, interval: Option<int>)

  /** The accumulator when plane k of a sweep is reached, after the decisions of planes 1 .. k - 1. */
  function DumpAcc(opts: DumpOptions, bnds: seq<int>, acc0: int, z: seq<int>, dz: seq<int>, k: nat): int
    requires 1 <= k <= |z| == |dz| + 1
  {
    if k == 1 then acc0
    else DumpDecision(opts.any, opts.interval, DumpAcc(opts, bnds, acc0, z, dz, k - 1), bnds, z[k - 1], dz[k - 2]).acc
  }

  /** Whether plane k of a sweep (1 <= k < |z|) is dumped. */
  predicate DumpsAt(opts: DumpOptions, bnds: seq<int>, acc0: int, z: seq<int>, dz: seq<int>, k: nat)
    requires 1 <= k < |z| == |dz| + 1
  {
    DumpDecision(opts.any, opts.interval, DumpAcc(opts, bnds, acc0, z, dz, k), bnds, z[k], dz[k - 1]).dump
  }

  /** The dump decisions of planes 1 .. n - 1, in order. */
  function DumpFlags(opts: DumpOptions, bnds: seq<int>, acc0: int, z: seq<int>, dz: seq<int>, n: nat): (r: seq<bool>)
    requires 1 <= n <= |z| == |dz| + 1
    ensures |r| == n - 1
  {
    if n == 1 then [] else DumpFlags(opts, bnds, acc0, z, dz, n - 1) + [DumpsAt(opts, bnds, acc0, z, dz, n - 1)]
  }

  /** Entry k - 1 of the flags is the decision at plane k. */
  lemma {:induction false} DumpFlagsIndex(opts: DumpOptions, bnds: seq<int>, acc0: int, z: seq<int>, dz: seq<int>, n: nat)
    requires 1 <= n <= |z| == |dz| + 1
    ensures forall k :: 1 <= k < n ==> DumpFlags(opts, bnds, acc0, z, dz, n)[k - 1] == DumpsAt(opts, bnds, acc0, z, dz, k)
  {
    if n > 1 {
      DumpFlagsIndex(opts, bnds, acc0, z, dz, n - 1);
    }
  }

  /** With no dump requested no plane is dumped and the accumulator never moves. */
  lemma {:induction false} NoDumpRequested(opts: DumpOptions, bnds: seq<int>, acc0: int, z: seq<int>, dz: seq<int>, k: nat)
    requires 1 <= k <= |z| == |dz| + 1 && !opts.any
    ensures DumpAcc(opts, bnds, acc0, z, dz, k) == acc0
    ensures k < |z| ==> !DumpsAt(opts, bnds, acc0, z, dz, k)
  {
    if k > 1 {
      NoDumpRequested(opts, bnds, acc0, z, dz, k - 1);
    }
  }

  /**
   * Starting from 0, the accumulator on reaching plane k is the distance travelled
   * since the inlet or since a dumped plane: the steps are summed and only a dump
   * restarts the sum.
   */
  lemma {:induction false} DumpAccumulatesDistance(opts: DumpOptions, bnds: seq<int>, z: seq<int>, dz: seq<int>, k: nat)
    requires 1 <= k <= |z| == |dz| + 1 && opts.any
    requires forall i :: 0 <= i < |dz| ==> z[i + 1] == z[i] + dz[i]
    ensures exists j ::
      && 0 <= j < k
      && DumpAcc(opts, bnds, 0, z, dz, k) == z[k - 1] - z[j]
      && (j == 0 || DumpsAt(opts, bnds, 0, z, dz, j))
  {
    if k == 1 {
      assert DumpAcc(opts, bnds, 0, z, dz, k) == z[0] - z[0];
    } else {
      DumpAccumulatesDistance(opts, bnds, z, dz, k - 1);
      var j :| 0 <= j < k - 1 && DumpAcc(opts, bnds, 0, z, dz, k - 1) == z[k - 2] - z[j] &&
        (j == 0 || DumpsAt(opts, bnds, 0, z, dz, j));
      var acc := DumpAcc(opts, bnds, 0, z, dz, k);
      if acc == DumpAcc(opts, bnds, 0, z, dz, k - 1) + dz[k - 2] {
        assert acc == z[k - 1] - z[j];
      } else {
        assert acc == z[k - 1] - z[k - 1] && DumpsAt(opts, bnds, 0, z, dz, k - 1);
      }
    }
  }

  /**
   * On a mesh planned by the axial march, a sweep with dumping requested writes
   * every axial region boundary above the inlet: each one is a mesh plane, and
   * that plane is dumped.
   */
  lemma SweepDumpsEveryBoundary(bnds: seq<int>, coreLength: int, req: int, z: seq<int>, dz: seq<int>,
                                opts: DumpOptions, acc0: int)
    requires req > 0 && StrictlyIncreasing(bnds) && opts.any
    requires coreLength >= 0 && coreLength in bnds && (forall b :: b in bnds ==> b <= coreLength)
    requires AxialMesh.Marched(bnds, coreLength, req, z, dz) && AxialMesh.Last(z) == coreLength
    ensures forall b :: b in bnds && 0 < b ==>
      exists i :: 1 <= i < |z| && z[i] == b && DumpsAt(opts, bnds, acc0, z, dz, i)
  {
    AxialMesh.PlannedMeshHitsEveryBoundary(bnds, coreLength, req, z, dz);
    forall b | b in bnds && 0 < b
      ensures exists i :: 1 <= i < |z| && z[i] == b && DumpsAt(opts, bnds, acc0, z, dz, i)
    {
      var i :| 0 <= i < |z| && z[i] == b;
      assert i != 0 && DumpsAt(opts, bnds, acc0, z, dz, i);
    }
  }

  // ---------------------------------------------------------------------
  // The low-flow convection approximation (`_setup_asm_axial_mesh_req`)
  // ---------------------------------------------------------------------

  /** Limiting subchannel codes that call for the approximation in a rodded assembly. */
  const LimitingCodes: set<char> := {'2', '3', '6', '7'}

  /**
   * Whether an assembly whose first estimate is (dz, sc) switches to the low-flow
   * duct-wall treatment: only when the option is on and dz is below the cutoff,
   * and then always without rods, and with rods only when the limiting
   * subchannel code starts with 2, 3, 6 or 7. An empty code there fails indexing.
   */
  function UseConvApprox(enabled: bool, dz: real, cutoff: real, hasRodded: bool, sc: string): (r: Option<bool>)
    ensures r.None? <==> enabled && dz < cutoff && hasRodded && |sc| == 0
    ensures r == Some(true) ==> enabled && dz < cutoff
    ensures enabled && dz < cutoff && !hasRodded ==> r == Some(true)
    ensures r.Some? && enabled && dz < cutoff && hasRodded ==> (r.value <==> sc[0] in LimitingCodes)
  {
    if !enabled || dz >= cutoff then Some(false)
    else if !hasRodded then Some(true)
    else if |sc| == 0 then None
    else Some(sc[0] in LimitingCodes)
  }

  /** The assembly with every region's low-flow flag set. */
  function LowFlow(a: Assembly): Assembly
  {
    a.(regions := seq(|a.regions|, j requires 0 <= j < |a.regions| => a.regions[j].(lowflow := true)))
  }

  /**
   * Setting the flags only ever raises them: afterwards every flag is set, the
   * temperatures and everything else are as before, and setting again changes nothing.
   */
  lemma LowFlowOnlyRaises(a: Assembly)
    ensures var b := LowFlow(a);
      && b.xPts == a.xPts && b.ductOuterTemp == a.ductOuterTemp && b.hasRodded == a.hasRodded
      && |b.regions| == |a.regions|
      && (forall j :: 0 <= j < |a.regions| ==> b.regions[j].lowflow && b.regions[j].temp == a.regions[j].temp)
      && LowFlow(b) == b
  {
    var b := LowFlow(a);
    assert LowFlow(b).regions == b.regions;
  }

  /** The requirement recorded for one assembly: the assembly as left, and the step and code computed on it. */
  datatype MeshReq = MeshReq(asm: Assembly, dz: real, sc: string)

  /**
   * One assembly's pass through `_setup_asm_axial_mesh_req`: estimate, and when the
   * approximation applies, set every region's low-flow flag and estimate again.
   * The recorded step is always the estimate for the assembly as it is left.
   */
  function AsmMeshReq(estimate: Assembly -> (real, string), enabled: bool, cutoff: real, a: Assembly)
    : (r: Option<MeshReq>)
    ensures r.None? <==> UseConvApprox(enabled, estimate(a).0, cutoff, a.hasRodded, estimate(a).1).None?
    ensures r.Some? ==> r.value.dz == estimate(r.value.asm).0 && r.value.sc == estimate(r.value.asm).1
    ensures r.Some? ==> r.value.asm == a || r.value.asm == LowFlow(a)
    ensures r.Some? && r.value.asm != a ==> enabled && estimate(a).0 < cutoff
    ensures r.Some? && enabled && estimate(a).0 < cutoff && !a.hasRodded ==> r.value.asm == LowFlow(a)
    // the flags are raised exactly when the approximation is chosen
    ensures r.Some? ==>
      r.value.asm == (if UseConvApprox(enabled, estimate(a).0, cutoff, a.hasRodded, estimate(a).1).value
                      then LowFlow(a) else a)
  {
    var first := estimate(a);
    var use := UseConvApprox(enabled, first.0, cutoff, a.hasRodded, first.1);
    if use.None? then None
    else if use.value then
      var a' := LowFlow(a);
      Some(MeshReq(a', estimate(a').0, estimate(a').1))
    else Some(MeshReq(a, first.0, first.1))
  }

  /** `for reg in asm.region: reg._lowflow = True`. */
  method SetLowFlow(a: Assembly) returns (a': Assembly)
    ensures a' == LowFlow(a)
  {
    var regions := a.regions;
    var j := 0;
    while j < |regions|
      invariant 0 <= j <= |regions| == |a.regions|
      invariant forall q :: 0 <= q < |regions| ==>
        regions[q] == (if q < j then a.regions[q].(lowflow := true) else a.regions[q])
    {
      regions := regions[j := regions[j].(lowflow := true)];
      j := j + 1;
    }
    a' := a.(regions := regions);
  }

  // ---------------------------------------------------------------------
  // Rod bundle bounds (`get_rod_bundle_bnds`)
  // ---------------------------------------------------------------------

  /**
   * The axial extent of an assembly's rod bundle in centimetres: for the
   * low-fidelity model a zero-length bundle at the top of the fine mesh, otherwise
   * the `rods` region converted from metres. The source fails on an empty fine
   * mesh in the first case and on a missing `rods` region in the second.
   */
  function RodBundleBounds(zfm: seq<real>, lowFidelity: bool, rods: Option<AxialMesh.RegionSpec>)
    : (r: Option<seq<real>>)
    ensures r.Some? <==> (if lowFidelity then |zfm| > 0 else rods.Some?)
    ensures r.Some? ==> |r.value| == 2
    ensures r.Some? && lowFidelity ==> r.value[0] == r.value[1] == 100.0 * zfm[|zfm| - 1]
    ensures r.Some? && !lowFidelity ==> r.value[0] == 100.0 * rods.value.zLo && r.value[1] == 100.0 * rods.value.zHi
    ensures r.Some? && (lowFidelity || rods.value.zLo <= rods.value.zHi) ==> r.value[0] <= r.value[1]
  {
    if lowFidelity then
      if |zfm| == 0 then None else Some([100.0 * zfm[|zfm| - 1], 100.0 * zfm[|zfm| - 1]])
    else if rods.None? then None
    else Some([100.0 * rods.value.zLo, 100.0 * rods.value.zHi])
  }

  // ---------------------------------------------------------------------
  // One axial step and the sweep (`axial_step`, `temperature_sweep`)
  // ---------------------------------------------------------------------

  /** A call into a collaborating solver, recorded in the order the sweep makes it. */
  datatype Event =
    | GapUpdate(dz: int, tDuct: seq<seq<real>>)
    | AsmUpdate(asm: nat, z: int, dz: int, dump: bool)

  /** `approximate_temps` of every assembly's duct outer-surface temperatures onto the gap's perimeter mesh. */
  function RemappedDucts(fits: seq<Perimeter.Fit>, asms: seq<Assembly>, coreX: seq<real>): (r: seq<Option<seq<real>>>)
    requires |fits| == |asms|
    ensures |r| == |asms|
  {
    seq(|asms|, a requires 0 <= a < |asms| =>
      Perimeter.ApproximateTemps(fits[a], asms[a].xPts, asms[a].ductOuterTemp, coreX))
  }

  /**
   * The array the gap update receives: every assembly's remapped duct profile in
   * assembly order, or None when one of them cannot be remapped.
   */
  function DuctTemps(fits: seq<Perimeter.Fit>, asms: seq<Assembly>, coreX: seq<real>): Option<seq<seq<real>>>
    requires |fits| == |asms|
  {
    var ts := RemappedDucts(fits, asms, coreX);
    if forall a :: 0 <= a < |ts| ==> ts[a].Some? then Some(seq(|ts|, a requires 0 <= a < |ts| => ts[a].value))
    else None
  }

  /** The gap's array holds, in order, exactly the remapped profile of each assembly. */
  lemma DuctTempsInOrder(fits: seq<Perimeter.Fit>, asms: seq<Assembly>, coreX: seq<real>)
    requires |fits| == |asms|
    ensures DuctTemps(fits, asms, coreX).Some? <==> forall a :: 0 <= a < |asms| ==>
      Perimeter.ApproximateTemps(fits[a], asms[a].xPts, asms[a].ductOuterTemp, coreX).Some?
    ensures DuctTemps(fits, asms, coreX).Some? ==>
      |DuctTemps(fits, asms, coreX).value| == |asms| && forall a :: 0 <= a < |asms| ==>
      DuctTemps(fits, asms, coreX).value[a] == Perimeter.ApproximateTemps(fits[a], asms[a].xPts, asms[a].ductOuterTemp, coreX).value
  {
    var ts := RemappedDucts(fits, asms, coreX);
    assert forall a :: 0 <= a < |asms| ==>
      ts[a] == Perimeter.ApproximateTemps(fits[a], asms[a].xPts, asms[a].ductOuterTemp, coreX);
  }

  /**
   * The gap sees each assembly's duct corners exactly: for a well-formed duct
   * profile and a gap mesh with corners, the remapped profile has the same six
   * corner temperatures.
   */
  lemma GapSeesDuctCorners(fits: seq<Perimeter.Fit>, asms: seq<Assembly>, coreX: seq<real>, a: nat)
    requires |fits| == |asms| && a < |asms| && |coreX| >= 2
    requires DuctTemps(fits, asms, coreX).Some?
    requires Perimeter.WellFormed(asms[a].xPts, asms[a].ductOuterTemp)
    ensures |DuctTemps(fits, asms, coreX).value[a]| >= 6
    ensures forall s :: 0 <= s < 6 ==>
      Perimeter.Corner(DuctTemps(fits, asms, coreX).value[a], s) == Perimeter.Corner(asms[a].ductOuterTemp, s)
  {
    DuctTempsInOrder(fits, asms, coreX);
    if asms[a].xPts != coreX {
      Perimeter.CornersPreserved(fits[a], asms[a].xPts, asms[a].ductOuterTemp, coreX);
    }
  }

  /** The assembly updates of one plane, one per assembly in list order. */
  function AsmUpdates(n: nat, z: int, dz: int, dump: bool): (es: seq<Event>)
    ensures |es| == n
  {
    if n == 0 then [] else AsmUpdates(n - 1, z, dz, dump) + [AsmUpdate(n - 1, z, dz, dump)]
  }

  /** The collaborator calls of one axial step: the gap update when there is a gap model, then the assemblies. */
  function StepEvents(gap: Option<seq<seq<real>>>, n: nat, z: int, dz: int, dump: bool): seq<Event>
  {
    (if gap.Some? then [GapUpdate(dz, gap.value)] else []) + AsmUpdates(n, z, dz, dump)
  }

  /**
   * Within one step the gap is updated at most once, only with a gap model, and
   * before any assembly; then every assembly is updated once, in list order,
   * with the same plane, step and dump flag.
   */
  lemma {:induction false} StepOrder(gap: Option<seq<seq<real>>>, n: nat, z: int, dz: int, dump: bool)
    ensures var es := StepEvents(gap, n, z, dz, dump);
      && |es| == n + (if gap.Some? then 1 else 0)
      && (gap.Some? ==> es[0] == GapUpdate(dz, gap.value))
      && (forall k :: 0 <= k < |es| && es[k].GapUpdate? ==> k == 0 && gap.Some?)
      && (forall a :: 0 <= a < n ==> es[|es| - n + a] == AsmUpdate(a, z, dz, dump))
  {
    AsmUpdatesInOrder(n, z, dz, dump);
  }

  lemma {:induction false} AsmUpdatesInOrder(n: nat, z: int, dz: int, dump: bool)
    ensures forall a :: 0 <= a < n ==> AsmUpdates(n, z, dz, dump)[a] == AsmUpdate(a, z, dz, dump)
  {
    if n > 0 {
      AsmUpdatesInOrder(n - 1, z, dz, dump);
    }
  }

  /** The collaborator calls of planes 1 .. n - 1 of a sweep. */
  function SweepEvents(gap: Option<seq<seq<real>>>, nAsm: nat, opts: DumpOptions, bnds: seq<int>, acc0: int,
                       z: seq<int>, dz: seq<int>, n: nat): seq<Event>
    requires 1 <= n <= |z| == |dz| + 1
  {
    if n == 1 then []
    else
      SweepEvents(gap, nAsm, opts, bnds, acc0, z, dz, n - 1) +
      StepEvents(gap, nAsm, z[n - 1], dz[n - 2], DumpsAt(opts, bnds, acc0, z, dz, n - 1))
  }

  /** Whether counting one more plane from counter c reaches the logging interval. */
  predicate Reports(enabled: bool, interval: int, c: int)
  {
    enabled && interval <= c + 1
  }

  /** The progress counter after one more plane: unchanged when logging is off, restarted on a report. */
  function Tick(enabled: bool, interval: int, c: int): int
  {
    if !enabled then c
    else if Reports(enabled, interval, c) then 0
    else c + 1
  }

  /** The progress counter when plane k of a sweep is reached, starting from c0. */
  function ProgressCount(enabled: bool, interval: int, c0: int, k: nat): int
    requires k >= 1
  {
    if k == 1 then c0 else Tick(enabled, interval, ProgressCount(enabled, interval, c0, k - 1))
  }

  /** Whether progress is logged at plane k. */
  predicate LogsAt(enabled: bool, interval: int, c0: int, k: nat)
    requires k >= 1
  {
    Reports(enabled, interval, ProgressCount(enabled, interval, c0, k))
  }

  /** The planes among 1 .. n - 1 at which progress is logged, in order. */
  function ProgressPlanes(enabled: bool, interval: int, c0: int, n: nat): seq<nat>
    requires n >= 1
  {
    if n == 1 then []
    else ProgressPlanes(enabled, interval, c0, n - 1) + (if LogsAt(enabled, interval, c0, n - 1) then [n - 1] else [])
  }

  /**
   * With logging every L planes and a counter c below L, progress is logged at
   * planes L - c, 2L - c, ..., and the counter is the number of planes since the
   * last message, always below L.
   */
  lemma {:induction false} ProgressEveryInterval(interval: int, c0: int, n: nat)
    requires 1 <= interval && 0 <= c0 < interval && n >= 1
    ensures var c, ps := ProgressCount(true, interval, c0, n), ProgressPlanes(true, interval, c0, n);
      && 0 <= c < interval
      && c == c0 + (n - 1) - interval * |ps|
      && forall k :: 0 <= k < |ps| ==> ps[k] == interval * (k + 1) - c0
  {
    if n > 1 {
      ProgressEveryInterval(interval, c0, n - 1);
      var m := |ProgressPlanes(true, interval, c0, n - 1)|;
      if LogsAt(true, interval, c0, n - 1) {
        assert interval * (m + 1) == interval * m + interval;
      }
    }
  }

  /** Without progress logging nothing is logged and the counter stays put. */
  lemma {:induction false} ProgressDisabled(interval: int, c0: int, n: nat)
    requires n >= 1
    ensures ProgressCount(false, interval, c0, n) == c0 && ProgressPlanes(false, interval, c0, n) == []
  {
    if n > 1 {
      ProgressDisabled(interval, c0, n - 1);
    }
  }

  // ---------------------------------------------------------------------
  // The reactor object
  // ---------------------------------------------------------------------

  /**
   * The state of a reactor that the sweep reads and updates: the axial mesh, the
   * dump and progress options with their running accumulators, the gap model,
   * the assemblies and the low-flow step requirements. `trace` records the calls
   * made into the gap and assembly solvers, `logged` the planes at which
   * progress was reported.
   */
  class Reactor {
    var z: seq<int>
    var dz: seq<int>
    var axialBnds: seq<int>
    var dumpOpts: DumpOptions
    var dumpDz: int
    var logProgress: bool
    var logInterval: int
    var stepCount: int
    var logged: seq<nat>
    var gapModel: bool
    var coreXPts: seq<real>
    var gapTemp: seq<real>
    var inletTemp: real
    var assemblies: seq<Assembly>
    var fits: seq<Perimeter.Fit>
    var convApprox: bool
    var convApproxDzCutoff: real
    var minDz: seq<real>
    var minSc: seq<string>
    var trace: seq<Event>

    /** The mesh has one step between consecutive planes and every assembly has its fit. */
    ghost predicate Shaped()
      reads this`z, this`dz, this`fits, this`assemblies
    {
      |z| == |dz| + 1 && |fits| == |assemblies|
    }

    /** Shaped, and the progress counter is below a positive logging interval. */
    ghost predicate Valid()
      reads this`z, this`dz, this`fits, this`assemblies, this`logProgress, this`logInterval, this`stepCount
    {
      && Shaped()
      && (logProgress ==> 1 <= logInterval && 0 <= stepCount < logInterval)
    }

    /**
     * The part of construction the sweep depends on: options as `_setup_options`
     * stores them (progress logging on for a positive interval, the 0.001 m
     * default cutoff) and the axial mesh marched by `_setup_zpts`.
     */
    constructor (bnds: seq<int>, coreLength: int, reqDz: int, dumpAny: bool, dumpInterval: Option<int>,
                 logProgressOpt: int, convApprox: bool, convApproxDzCutoff: Option<real>,
                 gapModel: bool, coreXPts: seq<real>, gapTemp: seq<real>, inletTemp: real,
                 assemblies: seq<Assembly>, fits: seq<Perimeter.Fit>)
      requires reqDz > 0 && |fits| == |assemblies|
      ensures Valid()
      ensures AxialMesh.Marched(bnds, coreLength, reqDz, z, dz) && axialBnds == bnds
      ensures AxialMesh.Last(z) >= coreLength
      ensures coreLength >= 0 && coreLength in bnds && (forall b :: b in bnds ==> b <= coreLength) ==>
        AxialMesh.Last(z) == coreLength
      ensures dumpOpts == DumpOptions(dumpAny, dumpInterval) && dumpDz == 0
      ensures logProgress == (logProgressOpt > 0) && stepCount == 0
      ensures logProgress ==> logInterval == logProgressOpt
      ensures this.convApproxDzCutoff == if convApproxDzCutoff.Some? then convApproxDzCutoff.value else 0.001
      ensures trace == [] && logged == [] && minDz == [] && minSc == []
    {
      var zs, dzs := AxialMesh.MeshPoints(bnds, coreLength, reqDz);
      z, dz := zs, dzs;
      axialBnds := bnds;
      dumpOpts, dumpDz := DumpOptions(dumpAny, dumpInterval), 0;
      logProgress := logProgressOpt > 0;
      logInterval := logProgressOpt;
      stepCount := 0;
      logged := [];
      this.gapModel, this.coreXPts, this.gapTemp, this.inletTemp := gapModel, coreXPts, gapTemp, inletTemp;
      this.assemblies, this.fits := assemblies, fits;
      this.convApprox := convApprox;
      this.convApproxDzCutoff := if convApproxDzCutoff.Some? then convApproxDzCutoff.value else 0.001;
      minDz, minSc := [], [];
      trace := [];
    }

    /** The remapped duct temperatures the gap update receives, when there is a gap model. */
    function GapInput(): Option<seq<seq<real>>>
      reads this`gapModel, this`fits, this`assemblies, this`coreXPts
      requires |fits| == |assemblies|
    {
      if gapModel then DuctTemps(fits, assemblies, coreXPts) else None
    }

    /** An axial step fails when the gap model needs a duct profile that cannot be remapped. */
    predicate StepFails()
      reads this`gapModel, this`fits, this`assemblies, this`coreXPts
      requires |fits| == |assemblies|
    {
      gapModel && DuctTemps(fits, assemblies, coreXPts).None?
    }

    /** `reset`: every gap and region temperature back to the inlet temperature. */
    method Reset()
      modifies this`gapTemp, this`assemblies
      ensures gapTemp == Filled(|old(gapTemp)|, inletTemp)
      ensures assemblies == ResetAll(old(assemblies), inletTemp)
    {
      gapTemp := Filled(|gapTemp|, inletTemp);
      var i := 0;
      while i < |assemblies|
        invariant 0 <= i <= |assemblies| == |old(assemblies)|
        invariant gapTemp == Filled(|old(gapTemp)|, inletTemp)
        invariant forall q :: 0 <= q < |assemblies| ==>
          assemblies[q] == (if q < i then ResetAssembly(old(assemblies)[q], inletTemp) else old(assemblies)[q])
      {
        var a := ResetAssemblyTemps(assemblies[i], inletTemp);
        assemblies := assemblies[i := a];
        i := i + 1;
      }
    }

    /**
     * `_setup_asm_axial_mesh_req`: each assembly in turn, as AsmMeshReq describes,
     * until one fails; the assemblies not reached are untouched.
     */
    method SetupAsmAxialMeshReq(estimate: Assembly -> (real, string)) returns (ok: bool)
      modifies this`assemblies, this`minDz, this`minSc
      ensures |assemblies| == |old(assemblies)| && |minDz| == |minSc| <= |assemblies|
      ensures ok <==> |minDz| == |assemblies|
      ensures forall i :: 0 <= i < |minDz| ==>
        AsmMeshReq(estimate, convApprox, convApproxDzCutoff, old(assemblies)[i]) ==
        Some(MeshReq(assemblies[i], minDz[i], minSc[i]))
      ensures forall i :: |minDz| <= i < |assemblies| ==> assemblies[i] == old(assemblies)[i]
      ensures !ok ==> AsmMeshReq(estimate, convApprox, convApproxDzCutoff, old(assemblies)[|minDz|]).None?
    {
      minDz, minSc := [], [];
      var ai := 0;
      while ai < |assemblies|
        invariant 0 <= ai <= |assemblies| == |old(assemblies)|
        invariant |minDz| == |minSc| == ai
        invariant forall i :: 0 <= i < ai ==>
          AsmMeshReq(estimate, convApprox, convApproxDzCutoff, old(assemblies)[i]) ==
          Some(MeshReq(assemblies[i], minDz[i], minSc[i]))
        invariant forall i :: ai <= i < |assemblies| ==> assemblies[i] == old(assemblies)[i]
      {
        var asm := assemblies[ai];
        var d, sc := estimate(asm).0, estimate(asm).1;
        var use := UseConvApprox(convApprox, d, convApproxDzCutoff, asm.hasRodded, sc);
        if use.None? {
          return false;
        }
        if use.value {
          asm := SetLowFlow(asm);
          assemblies := assemblies[ai := asm];
          d, sc := estimate(asm).0, estimate(asm).1;
        }
        minDz, minSc := minDz + [d], minSc + [sc];
        ai := ai + 1;
      }
      return true;
    }

    /** `_data_setup`, as far as the sweep's state goes: a requested dump restarts the accumulator. */
    method DataSetup()
      modifies this`dumpDz
      ensures dumpDz == if dumpOpts.any then 0 else old(dumpDz)
    {
      if dumpOpts.any {
        dumpDz := 0;
      }
    }

    /** `_determine_whether_to_dump_data`. */
    method DetermineDump(zi: int, dzi: int) returns (dump: bool)
      modifies this`dumpDz
      ensures DumpOutcome(dump, dumpDz) == DumpDecision(dumpOpts.any, dumpOpts.interval, old(dumpDz), axialBnds, zi, dzi)
    {
      if dumpOpts.any {
        dumpDz := dumpDz + dzi;
        if dumpOpts.interval.None? {
          dump := true;
        } else if Round9(dumpDz) >= dumpOpts.interval.value {
          dump := true;
          dumpDz := 0;
        } else if zi in axialBnds {
          dump := true;
        } else {
          dump := false;
        }
      } else {
        dump := false;
      }
    }

    /** The gap solver (`core.calculate_gap_temperatures`), outside this model: the call is recorded. */
    method CalculateGapTemperatures(dzi: int, tDuct: seq<seq<real>>)
      modifies this`trace
      ensures trace == old(trace) + [GapUpdate(dzi, tDuct)]
    {
      trace := trace + [GapUpdate(dzi, tDuct)];
    }

    /** The assembly solver (`_calculate_asm_temperatures`), outside this model: the call is recorded. */
    method CalculateAsmTemperatures(a: nat, zi: int, dzi: int, dump: bool)
      modifies this`trace
      ensures trace == old(trace) + [AsmUpdate(a, zi, dzi, dump)]
    {
      trace := trace + [AsmUpdate(a, zi, dzi, dump)];
    }

    /** `_print_log_msg`: report the plane and restart the counter. */
    method PrintLogMsg(step: nat)
      modifies this`logged, this`stepCount
      ensures logged == old(logged) + [step] && stepCount == 0
    {
      logged := logged + [step];
      stepCount := 0;
    }

    /** The progress bookkeeping of one sweep plane: count it, and report once the interval is reached. */
    method CountPlane(step: nat)
      modifies this`stepCount, this`logged
      ensures stepCount == Tick(logProgress, logInterval, old(stepCount))
      ensures logged == old(logged) + (if Reports(logProgress, logInterval, old(stepCount)) then [step] else [])
    {
      if logProgress {
        stepCount := stepCount + 1;
        if logInterval <= stepCount {
          PrintLogMsg(step);
        }
      }
    }

    /**
     * `axial_step`: decide whether to dump, then update the gap from the remapped
     * duct temperatures when there is a gap model, then every assembly in order.
     */
    method AxialStep(zi: int, dzi: int) returns (ok: bool, dump: bool)
      requires Shaped()
      modifies this`dumpDz, this`trace
      ensures DumpOutcome(dump, dumpDz) == DumpDecision(dumpOpts.any, dumpOpts.interval, old(dumpDz), axialBnds, zi, dzi)
      ensures ok == !StepFails()
      ensures ok ==> trace == old(trace) + StepEvents(GapInput(), |assemblies|, zi, dzi, dump)
      ensures !ok ==> trace == old(trace)
    {
      dump := DetermineDump(zi, dzi);
      if gapModel {
        var tDuct := DuctTemps(fits, assemblies, coreXPts);
        if tDuct.None? {
          return false, dump;
        }
        CalculateGapTemperatures(dzi, tDuct.value);
      }
      ghost var start, acc := trace, dumpDz;
      var n := |assemblies|;
      var a := 0;
      while a < n
        invariant 0 <= a <= n && dumpDz == acc
        invariant trace == start + AsmUpdates(a, zi, dzi, dump)
      {
        CalculateAsmTemperatures(a, zi, dzi, dump);
        a := a + 1;
      }
      ok := true;
    }

    /**
     * One pass of the sweep loop: the axial step to plane i, then the progress
     * count. Given the accumulator and counter the sweep has when it reaches
     * plane i, it leaves them as the sweep has them at plane i + 1.
     */
    method SweepPlane(i: nat, ghost acc0: int, ghost c0: int) returns (ok: bool, dump: bool)
      requires Shaped() && 1 <= i < |z|
      requires dumpDz == DumpAcc(dumpOpts, axialBnds, acc0, z, dz, i)
      requires stepCount == ProgressCount(logProgress, logInterval, c0, i)
      modifies this`dumpDz, this`trace, this`stepCount, this`logged
      ensures ok == !StepFails()
      ensures !ok ==> trace == old(trace) && logged == old(logged) && stepCount == old(stepCount)
      ensures ok ==>
        && dump == DumpsAt(dumpOpts, axialBnds, acc0, z, dz, i)
        && dumpDz == DumpAcc(dumpOpts, axialBnds, acc0, z, dz, i + 1)
        && stepCount == ProgressCount(logProgress, logInterval, c0, i + 1)
        && logged == old(logged) + (if LogsAt(logProgress, logInterval, c0, i) then [i] else [])
        && trace == old(trace) + StepEvents(GapInput(), |assemblies|, z[i], dz[i - 1], dump)
    {
      ok, dump := AxialStep(z[i], dz[i - 1]);
      if ok {
        CountPlane(i);
      }
    }

    /**
     * The loop of `temperature_sweep`: the axial step to every plane after the
     * inlet in turn, counting planes for the progress log, starting from the
     * current dump accumulator and progress counter.
     */
    method SweepPlanes() returns (ok: bool, dumps: seq<bool>)
      requires Valid()
      modifies this`dumpDz, this`trace, this`stepCount, this`logged
      ensures Valid()
      ensures ok <==> |z| == 1 || !StepFails()
      ensures ok ==>
        && dumps == DumpFlags(dumpOpts, axialBnds, old(dumpDz), z, dz, |z|)
        && dumpDz == DumpAcc(dumpOpts, axialBnds, old(dumpDz), z, dz, |z|)
        && stepCount == ProgressCount(logProgress, logInterval, old(stepCount), |z|)
        && logged == old(logged) + ProgressPlanes(logProgress, logInterval, old(stepCount), |z|)
        && trace == old(trace) + SweepEvents(GapInput(), |assemblies|, dumpOpts, axialBnds, old(dumpDz), z, dz, |z|)
      ensures !ok ==> trace == old(trace) && logged == old(logged) && stepCount == old(stepCount)
    {
      ghost var acc0, c0, log0, trace0 := dumpDz, stepCount, logged, trace;
      ghost var gap, nAsm := GapInput(), |assemblies|;
      var zs, dzs, opts, bnds := z, dz, dumpOpts, axialBnds;
      ghost var enabled, every := logProgress, logInterval;
      dumps := [];
      var i := 1;
      while i < |zs|
        invariant 1 <= i <= |zs| == |dzs| + 1
        invariant dumps == DumpFlags(opts, bnds, acc0, zs, dzs, i)
        invariant dumpDz == DumpAcc(opts, bnds, acc0, zs, dzs, i)
        invariant stepCount == ProgressCount(enabled, every, c0, i)
        invariant logged == log0 + ProgressPlanes(enabled, every, c0, i)
        invariant trace == trace0 + SweepEvents(gap, nAsm, opts, bnds, acc0, zs, dzs, i)
        invariant i > 1 ==> !StepFails()
        invariant Shaped()
      {
        var stepOk, dump := SweepPlane(i, acc0, c0);
        if !stepOk {
          return false, dumps;
        }
        AppendAssoc(trace0, SweepEvents(gap, nAsm, opts, bnds, acc0, zs, dzs, i),
          StepEvents(gap, nAsm, zs[i], dzs[i - 1], dump));
        AppendAssoc(log0, ProgressPlanes(enabled, every, c0, i), if LogsAt(enabled, every, c0, i) then [i] else []);
        dumps := dumps + [dump];
        i := i + 1;
      }
      if enabled {
        ProgressEveryInterval(every, c0, i);
      }
      ok := true;
    }

    /**
     * `temperature_sweep`: restart the dump accumulator when dumping is
     * requested, then sweep the planes. Plane k's dump decision is returned in
     * dumps[k - 1].
     */
    method TemperatureSweep() returns (ok: bool, dumps: seq<bool>)
      requires Valid()
      modifies this`dumpDz, this`trace, this`stepCount, this`logged
      ensures Valid()
      ensures ok <==> |z| == 1 || !StepFails()
      ensures ok ==>
        var acc0 := if dumpOpts.any then 0 else old(dumpDz);
        && |dumps| == |z| - 1
        && (forall k :: 1 <= k < |z| ==> dumps[k - 1] == DumpsAt(dumpOpts, axialBnds, acc0, z, dz, k))
        && dumpDz == DumpAcc(dumpOpts, axialBnds, acc0, z, dz, |z|)
        && stepCount == ProgressCount(logProgress, logInterval, old(stepCount), |z|)
        && logged == old(logged) + ProgressPlanes(logProgress, logInterval, old(stepCount), |z|)
        && trace == old(trace) + SweepEvents(GapInput(), |assemblies|, dumpOpts, axialBnds, acc0, z, dz, |z|)
      ensures !ok ==> trace == old(trace) && logged == old(logged) && stepCount == old(stepCount)
    {
      DataSetup();
      ghost var acc0 := dumpDz;
      ok, dumps := SweepPlanes();
      if ok {
        DumpFlagsIndex(dumpOpts, axialBnds, acc0, z, dz, |z|);
      }
    }
  }
}
