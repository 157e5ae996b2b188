/**
 * Post-processing of hot-spot temperatures: the header check and expression
 * counter used when reading hot-channel-factor tables, the per-assembly
 * temperature-rise tables built from the peak pin temperatures, and the
 * collection and sorting of the per-assembly results.
 */
module Hotspot {
  import opened Common

  // ---------------------------------------------------------------------
  // Header of a hot-channel-factor table
  // ---------------------------------------------------------------------

  /** The expected column headers, in order. */
  const Correct: seq<string> := ["Subfactor", "Type", "Coolant", "Film", "Cladding", "Gap", "Fuel"]

  /**
   * What the header check yields: no message, a message about one column,
   * or the IndexError raised when a header longer than the expected one
   * matches it on every expected column.
   */
  datatype HeaderVerdict = HeaderOk | HeaderMismatch(msg: string) | HeaderTooLong

  /** The message for a mismatch in (0-based) column i. */
  function MismatchMessage(i: nat, found: string): string
    requires i < |Correct|
  {
    "Col " + NatToString(i + 1) + " header must be \"" + Correct[i] + "\"; found \"" + found + "\""
  }

  /** The header check resumed at column i. */
  function CheckHeaderFrom(header: seq<string>, i: nat): HeaderVerdict
    requires i <= |header|
    decreases |header| - i
  {
    if i == |header| then HeaderOk
    else if i >= |Correct| then HeaderTooLong
    else if header[i] != Correct[i] then HeaderMismatch(MismatchMessage(i, header[i]))
    else CheckHeaderFrom(header, i + 1)
  }

  /** The header check: walks the columns and reports the first one that differs. */
  function CheckHeader(header: seq<string>): HeaderVerdict
  {
    CheckHeaderFrom(header, 0)
  }

  /** Resuming at column i, the verdict is decided by the first differing column at or after i. */
  lemma {:induction false} CheckHeaderFromFirst(header: seq<string>, i: nat)
    requires i <= |header| && i <= |Correct|
    ensures (CheckHeaderFrom(header, i) == HeaderOk)
              <==> (|header| <= |Correct| && forall j :: i <= j < |header| ==> header[j] == Correct[j])
    ensures (CheckHeaderFrom(header, i) == HeaderTooLong)
              <==> (|header| > |Correct| && forall j :: i <= j < |Correct| ==> header[j] == Correct[j])
    ensures CheckHeaderFrom(header, i).HeaderMismatch? ==>
              exists j :: && i <= j < |header| && j < |Correct|
                          && header[j] != Correct[j]
                          && (forall k :: i <= k < j ==> header[k] == Correct[k])
                          && CheckHeaderFrom(header, i).msg == MismatchMessage(j, header[j])
    decreases |header| - i
  {
    if i < |header| && i < |Correct| {
      if header[i] == Correct[i] {
        CheckHeaderFromFirst(header, i + 1);
        if CheckHeaderFrom(header, i).HeaderMismatch? {
          var j :| && i + 1 <= j < |header| && j < |Correct|
                   && header[j] != Correct[j]
                   && (forall k :: i + 1 <= k < j ==> header[k] == Correct[k])
                   && CheckHeaderFrom(header, i + 1).msg == MismatchMessage(j, header[j]);
          assert forall k :: i <= k < j ==> header[k] == Correct[k];
        }
      }
    }
  }

  /**
   * The header is accepted exactly when it is a prefix of the expected
   * header; it is refused with a message naming the first (1-based) column
   * that differs; and it raises only when longer than the expected header
   * while agreeing with it on every expected column.
   */
  lemma CheckHeaderSound(header: seq<string>)
    ensures (CheckHeader(header) == HeaderOk)
              <==> (|header| <= |Correct| && header == Correct[..|header|])
    ensures (CheckHeader(header) == HeaderTooLong)
              <==> (|header| > |Correct| && header[..|Correct|] == Correct)
    ensures CheckHeader(header).HeaderMismatch? ==>
              exists j :: && 0 <= j < |header| && j < |Correct|
                          && header[j] != Correct[j]
                          && header[..j] == Correct[..j]
                          && CheckHeader(header).msg == MismatchMessage(j, header[j])
  {
    CheckHeaderFromFirst(header, 0);
    if CheckHeader(header).HeaderMismatch? {
      var j :| && 0 <= j < |header| && j < |Correct|
               && header[j] != Correct[j]
               && (forall k :: 0 <= k < j ==> header[k] == Correct[k])
               && CheckHeader(header).msg == MismatchMessage(j, header[j]);
      assert header[..j] == Correct[..j];
    }
    if |header| <= |Correct| && header == Correct[..|header|] {
      assert forall j :: 0 <= j < |header| ==> header[j] == Correct[..|header|][j];
    }
    if |header| > |Correct| && header[..|Correct|] == Correct {
      assert forall j :: 0 <= j < |Correct| ==> header[j] == header[..|Correct|][j];
    }
  }

  // ---------------------------------------------------------------------
  // Counting the user expressions of a table
  // ---------------------------------------------------------------------

  /** `pat` starts at position j of `s`. */
  predicate MatchesAt(s: string, pat: string, j: nat)
  {
    j + |pat| <= |s| && s[j..j + |pat|] == pat
  }

  /** `pat` occurs somewhere in `s`. */
  ghost predicate Occurs(s: string, pat: string)
  {
    exists j: nat :: MatchesAt(s, pat, j)
  }

  /** Python's str.find from position i: the lowest index at or after i where `pat` starts, or -1. */
  function FindFrom(s: string, pat: string, i: nat): (r: int)
    ensures r == -1 <==> forall j: nat :: i <= j ==> !MatchesAt(s, pat, j)
    ensures r != -1 ==> i <= r && MatchesAt(s, pat, r)
    ensures forall j: nat :: i <= j < r ==> !MatchesAt(s, pat, j)
    decreases |s| - i
  {
    if i + |pat| > |s| then -1
    else if s[i..i + |pat|] == pat then assert MatchesAt(s, pat, i); i
    else FindFrom(s, pat, i + 1)
  }

  /** Python's str.find. */
  function Find(s: string, pat: string): (r: int)
    ensures r == -1 <==> !Occurs(s, pat)
  {
    FindFrom(s, pat, 0)
  }

  /** The tag that marks expression number n in a table: n stars followed by a comma. */
  function Tag(n: nat): (t: string)
    ensures |t| == n + 1 && t[n] == ','
    ensures forall k :: 0 <= k < n ==> t[k] == '*'
  {
    seq(n, _ => '*') + [',']
  }

  /** A tag of n + 1 stars contains the tag of n stars, one position further on. */
  lemma TagShrinks(s: string, n: nat)
    requires Occurs(s, Tag(n + 1))
    ensures Occurs(s, Tag(n))
  {
    var j: nat :| MatchesAt(s, Tag(n + 1), j);
    assert MatchesAt(s, Tag(n), j + 1) by {
      forall k | 0 <= k < n + 1 ensures s[j + 1..j + 1 + n + 1][k] == Tag(n)[k] {
        assert s[j + 1 + k] == s[j..j + n + 2][k + 1];
      }
    }
  }

  /** Once a tag is absent, every longer tag is absent too. */
  lemma {:induction false} TagAbsentAbove(s: string, n: nat, m: nat)
    requires !Occurs(s, Tag(n)) && n <= m
    ensures !Occurs(s, Tag(m))
    decreases m - n
  {
    if n < m {
      TagAbsentAbove(s, n, m - 1);
      if Occurs(s, Tag(m)) {
        TagShrinks(s, m - 1);
      }
    }
  }

  /** Once a tag is present, every shorter tag is present too. */
  lemma TagPresentBelow(s: string, n: nat, m: nat)
    requires Occurs(s, Tag(m)) && n <= m
    ensures Occurs(s, Tag(n))
  {
    if !Occurs(s, Tag(n)) {
      TagAbsentAbove(s, n, m);
    }
  }

  /**
   * The number of user expressions in a table: the largest n for which n
   * stars followed by a comma occur in the text, 0 when "*," does not occur;
   * None for the ValueError raised once a run of 101 stars and a comma is found.
   */
  method CountExpr(table: string) returns (r: Option<nat>)
    ensures r.None? <==> Occurs(table, Tag(101))
    ensures r.Some? ==> r.value <= 100
    ensures r.Some? && r.value > 0 ==> Occurs(table, Tag(r.value))
    ensures r.Some? ==> forall m :: r.value < m ==> !Occurs(table, Tag(m))
  {
    var n: nat := 1;
    while Find(table, Tag(n)) != -1
      invariant 1 <= n <= 101
      invariant forall k :: 1 <= k < n ==> Occurs(table, Tag(k))
      decreases 101 - n
    {
      if n > 100 {
        return None;
      }
      n := n + 1;
    }
    if Occurs(table, Tag(101)) {
      TagPresentBelow(table, n, 101);
    }
    forall m | n - 1 < m
      ensures !Occurs(table, Tag(m))
    {
      TagAbsentAbove(table, n, m);
    }
    r := Some(n - 1);
  }

  // ---------------------------------------------------------------------
  // Temperature-rise tables from the peak pin temperatures
  // ---------------------------------------------------------------------

  /**
   * Peak pin data of an assembly: the radial temperature profiles recorded
   * at the plane of peak clad mid-wall and of peak fuel centreline
   * temperature (entry 2 of the peak records), each starting with three
   * entries that are not temperatures.
   */
  datatype PinPeak = PinPeak(cladMw: seq<real>, fuelCl: seq<real>)

  /** An assembly as seen by the post-processing: its id, its type name and its pin peak data, if any. */
  datatype Asm = Asm(id: int, name: string, pin: Option<PinPeak>)

  /** Python's list slice s[lo:hi], which clamps both ends to the list. */
  function PySlice(s: seq<real>, lo: nat, hi: nat): (r: seq<real>)
    ensures |r| == (if hi <= |s| then hi else |s|) - (if lo <= hi && lo <= |s| then lo else (if hi <= |s| then hi else |s|))
    ensures forall k :: 0 <= k < |r| ==> r[k] == s[lo + k]
  {
    var e := if hi <= |s| then hi else |s|;
    var b := if lo <= e then lo else e;
    s[b..e]
  }

  /** Consecutive differences of a row: `t[1:] - t[:-1]`. */
  function Diffs(row: seq<real>): (d: seq<real>)
    ensures |d| == if row == [] then 0 else |row| - 1
    ensures forall k :: 0 <= k < |d| ==> d[k] == row[k + 1] - row[k]
  {
    if |row| <= 1 then [] else seq(|row| - 1, k requires 0 <= k < |row| - 1 => row[k + 1] - row[k])
  }

  /** Consecutive differences telescope: they add up to the last entry minus the first. */
  lemma {:induction false} DiffsSum(row: seq<real>)
    requires |row| > 0
    ensures Sum(Diffs(row)) == row[|row| - 1] - row[0]
    decreases |row|
  {
    if |row| > 1 {
      var d, rest := Diffs(row), row[1..];
      assert d[1..] == Diffs(rest) by {
        forall k | 0 <= k < |d| - 1 ensures d[1..][k] == Diffs(rest)[k] {
          assert d[k + 1] == row[k + 2] - row[k + 1];
        }
      }
      DiffsSum(rest);
      assert Sum(d) == d[0] + Sum(d[1..]);
    }
  }

  /** All rows have the same length, so numpy makes a two-dimensional array of them. */
  predicate Rectangular(rows: seq<seq<real>>)
  {
    forall i :: 0 <= i < |rows| ==> |rows[i]| == |rows[0]|
  }

  /**
   * `dt = t[:, 1:] - t[:, :-1]` on `t = np.array(rows)`: None for the error
   * numpy raises when there is no row or the rows differ in length.
   */
  function DiffTable(rows: seq<seq<real>>): (r: Option<seq<seq<real>>>)
    ensures r.Some? <==> |rows| > 0 && Rectangular(rows)
    ensures r.Some? ==> |r.value| == |rows| && forall i :: 0 <= i < |rows| ==> r.value[i] == Diffs(rows[i])
    ensures r.Some? ==> Rectangular(r.value)
  {
    if |rows| == 0 || !Rectangular(rows) then None
    else Some(seq(|rows|, i requires 0 <= i < |rows| => Diffs(rows[i])))
  }

  /** The ids of the first k assemblies whose type is `name`, in assembly order. */
  function TypeIds(asms: seq<Asm>, name: string, k: nat): seq<int>
    requires k <= |asms|
  {
    if k == 0 then []
    else TypeIds(asms, name, k - 1) + (if asms[k - 1].name == name then [asms[k - 1].id] else [])
  }

  /** The assemblies of type `name`. */
  function IdsOf(asms: seq<Asm>, name: string): seq<int>
  {
    TypeIds(asms, name, |asms|)
  }

  /** The row `[T_in] + clad_mw[2][3:6]` of one assembly. */
  function CladRow(tin: real, p: PinPeak): seq<real>
  {
    [tin] + PySlice(p.cladMw, 3, 6)
  }

  /** The row `[T_in] + fuel_cl[2][3:]` of one assembly, without its id. */
  function FuelRow(tin: real, p: PinPeak): seq<real>
  {
    [tin] + PySlice(p.fuelCl, 3, |p.fuelCl|)
  }

  /**
   * The rows collected from the first k assemblies of type `name`; None when
   * one of them has no pin peak data (the assertion fails).
   */
  function PeakRows(tin: real, asms: seq<Asm>, name: string, fuel: bool, k: nat): (r: Option<seq<seq<real>>>)
    requires k <= |asms|
    ensures r.Some? ==> |r.value| == |TypeIds(asms, name, k)|
  {
    if k == 0 then Some([])
    else
      var prev := PeakRows(tin, asms, name, fuel, k - 1);
      var a := asms[k - 1];
      if prev.None? then None
      else if a.name != name then prev
      else if a.pin.None? then None
      else Some(prev.value + [PeakRow(tin, a.pin.value, fuel)])
  }

  /** The fuel or the clad row of one assembly. */
  function PeakRow(tin: real, p: PinPeak, fuel: bool): seq<real>
  {
    if fuel then FuelRow(tin, p) else CladRow(tin, p)
  }

  /** The clad table: per assembly of the type, the coolant, film and clad temperature rises. */
  function CladDt(tin: real, asms: seq<Asm>, name: string): (r: Option<seq<seq<real>>>)
    ensures r.Some? ==> |r.value| == |IdsOf(asms, name)|
  {
    match PeakRows(tin, asms, name, false, |asms|)
    case None => None
    case Some(rows) => DiffTable(rows)
  }

  /** `dt[:, 2] += dt[:, 3]; dt = dt[:, (0, 1, 2, 4, 5)]` on one row. */
  function MergeClad(d: seq<real>): (m: seq<real>)
    requires |d| >= 6
    ensures |m| == 5
  {
    [d[0], d[1], d[2] + d[3], d[4], d[5]]
  }

  /** The five kept columns add up to the first six differences. */
  lemma MergeCladSum(d: seq<real>)
    requires |d| >= 6
    ensures Sum(MergeClad(d)) == Sum(d[..6])
  {
    var m := MergeClad(d);
    assert m[1..][1..][1..][1..][1..] == [];
    var e := d[..6];
    assert e[1..][1..][1..][1..][1..][1..] == [];
    calc {
      Sum(e);
      e[0] + Sum(e[1..]);
      e[0] + (e[1] + Sum(e[1..][1..]));
      e[0] + (e[1] + (e[2] + Sum(e[1..][1..][1..])));
      e[0] + (e[1] + (e[2] + (e[3] + Sum(e[1..][1..][1..][1..]))));
      e[0] + (e[1] + (e[2] + (e[3] + (e[4] + Sum(e[1..][1..][1..][1..][1..])))));
      e[0] + (e[1] + (e[2] + (e[3] + (e[4] + e[5]))));
    }
    calc {
      Sum(m);
      m[0] + Sum(m[1..]);
      m[0] + (m[1] + Sum(m[1..][1..]));
      m[0] + (m[1] + (m[2] + Sum(m[1..][1..][1..])));
      m[0] + (m[1] + (m[2] + (m[3] + Sum(m[1..][1..][1..][1..]))));
      m[0] + (m[1] + (m[2] + (m[3] + m[4])));
    }
  }

  /** The clad columns merged in every row of a difference table. */
  function MergeRows(dt: seq<seq<real>>): (m: seq<seq<real>>)
    requires forall i :: 0 <= i < |dt| ==> |dt[i]| >= 6
    ensures |m| == |dt| && forall i :: 0 <= i < |dt| ==> m[i] == MergeClad(dt[i])
  {
    seq(|dt|, i requires 0 <= i < |dt| => MergeClad(dt[i]))
  }

  /**
   * The fuel table as intended: per assembly of the type, the coolant, film,
   * whole-clad, gap and fuel temperature rises; None where numpy raises
   * (no row, rows of different lengths, fewer than six differences).
   */
  function FuelDt(tin: real, asms: seq<Asm>, name: string): (r: Option<seq<seq<real>>>)
    ensures r.Some? ==> |r.value| == |IdsOf(asms, name)|
  {
    match PeakRows(tin, asms, name, true, |asms|)
    case None => None
    case Some(rows) =>
      match DiffTable(rows)
      case None => None
      case Some(dt) =>
        if |dt[0]| < 6 then None
        else Some(MergeRows(dt))
  }

  /**
   * Collects the clad rows of the assemblies of type `name` and returns their
   * consecutive differences.
   */
  method GetCladPeakDt(tin: real, asms: seq<Asm>, name: string) returns (r: Option<seq<seq<real>>>)
    ensures r == CladDt(tin, asms, name)
  {
    var t: seq<seq<real>> := [];
    var k := 0;
    while k < |asms|
      invariant 0 <= k <= |asms|
      invariant PeakRows(tin, asms, name, false, k) == Some(t)
    {
      var a := asms[k];
      if a.name == name {
        if a.pin.None? {
          assert PeakRows(tin, asms, name, false, k + 1).None?;
          PeakRowsNoneStays(tin, asms, name, false, k + 1, |asms|);
          return None;
        }
        t := t + [CladRow(tin, a.pin.value)];
      }
      k := k + 1;
    }
    r := DiffTable(t);
  }

  /**
   * Collects the fuel rows of the assemblies of type `name`, takes their
   * consecutive differences and merges the two clad columns.
   */
  method GetFuelPeakDt(tin: real, asms: seq<Asm>, name: string) returns (r: Option<seq<seq<real>>>)
    ensures r == FuelDt(tin, asms, name)
  {
    var t: seq<seq<real>> := [];
    var k := 0;
    while k < |asms|
      invariant 0 <= k <= |asms|
      invariant PeakRows(tin, asms, name, true, k) == Some(t)
    {
      var a := asms[k];
      if a.name == name {
        if a.pin.None? {
          assert PeakRows(tin, asms, name, true, k + 1).None?;
          PeakRowsNoneStays(tin, asms, name, true, k + 1, |asms|);
          return None;
        }
        t := t + [FuelRow(tin, a.pin.value)];
      }
      k := k + 1;
    }
    var dt := DiffTable(t);
    if dt.None? || |dt.value[0]| < 6 {
      return None;
    }
    var merged := MergeColumns(dt.value);
    r := Some(merged);
  }

  /** `dt[:, 2] += dt[:, 3]; dt = dt[:, (0, 1, 2, 4, 5)]`, row by row. */
  method MergeColumns(rows: seq<seq<real>>) returns (merged: seq<seq<real>>)
    requires forall j :: 0 <= j < |rows| ==> |rows[j]| >= 6
    ensures merged == MergeRows(rows)
  {
    merged := [];
    var i := 0;
    while i < |rows|
      invariant 0 <= i <= |rows|
      invariant |merged| == i
      invariant forall j :: 0 <= j < i ==> merged[j] == MergeClad(rows[j])
    {
      merged := merged + [MergeClad(rows[i])];
      i := i + 1;
    }
  }

  /** Once an assertion has failed the collection stays failed. */
  lemma {:induction false} PeakRowsNoneStays(tin: real, asms: seq<Asm>, name: string, fuel: bool, k: nat, m: nat)
    requires k <= m <= |asms|
    requires PeakRows(tin, asms, name, fuel, k).None?
    ensures PeakRows(tin, asms, name, fuel, m).None?
    decreases m - k
  {
    if k < m {
      PeakRowsNoneStays(tin, asms, name, fuel, k, m - 1);
    }
  }

  /** The i-th collected row belongs to the i-th assembly of the type, which has pin peak data. */
  lemma {:induction false} PeakRowsAt(tin: real, asms: seq<Asm>, name: string, fuel: bool, k: nat, i: nat)
    requires k <= |asms|
    requires PeakRows(tin, asms, name, fuel, k).Some?
    requires i < |TypeIds(asms, name, k)|
    ensures exists j :: && 0 <= j < k && asms[j].name == name && asms[j].id == TypeIds(asms, name, k)[i]
                        && asms[j].pin.Some?
                        && PeakRows(tin, asms, name, fuel, k).value[i] == PeakRow(tin, asms[j].pin.value, fuel)
    decreases k
  {
    var prev := TypeIds(asms, name, k - 1);
    if i < |prev| {
      PeakRowsAt(tin, asms, name, fuel, k - 1, i);
    } else {
      assert TypeIds(asms, name, k)[i] == asms[k - 1].id;
    }
  }

  /**
   * Each row of the clad table is the differences of the clad row of one
   * assembly of the type, taken in assembly order.
   */
  lemma CladDtRows(tin: real, asms: seq<Asm>, name: string, i: nat)
    requires CladDt(tin, asms, name).Some? && i < |CladDt(tin, asms, name).value|
    ensures exists j :: && 0 <= j < |asms| && asms[j].name == name && asms[j].id == IdsOf(asms, name)[i]
                        && asms[j].pin.Some?
                        && CladDt(tin, asms, name).value[i] == Diffs(CladRow(tin, asms[j].pin.value))
  {
    var rows := PeakRows(tin, asms, name, false, |asms|).value;
    assert DiffTable(rows) == CladDt(tin, asms, name);
    PeakRowsAt(tin, asms, name, false, |asms|, i);
  }

  /**
   * The clad row of an assembly gives the coolant, film and clad-to-mid-wall
   * rises, which add up to the peak clad mid-wall temperature minus the
   * inlet temperature.
   */
  lemma CladRowRises(tin: real, p: PinPeak)
    requires |p.cladMw| >= 6
    ensures var c := p.cladMw;
            && Diffs(CladRow(tin, p)) == [c[3] - tin, c[4] - c[3], c[5] - c[4]]
            && Sum(Diffs(CladRow(tin, p))) == c[5] - tin
  {
    var c := p.cladMw;
    var row := CladRow(tin, p);
    assert row == [tin, c[3], c[4], c[5]];
    DiffsSum(row);
  }

  /** Sum of the first six differences of the fuel row. */
  lemma FuelMergedSum(row: seq<real>)
    requires |row| >= 7
    ensures |Diffs(row)| >= 6 && Sum(MergeClad(Diffs(row))) == row[6] - row[0]
  {
    var d, head := Diffs(row), row[..7];
    MergeCladSum(d);
    assert d[..6] == Diffs(head) by {
      forall k | 0 <= k < 6 ensures d[..6][k] == Diffs(head)[k] {
        assert head[k + 1] == row[k + 1] && head[k] == row[k];
      }
    }
    DiffsSum(head);
  }

  /**
   * Each row of the fuel table is the merged differences of the fuel row of
   * one assembly of the type, taken in assembly order, whose profile holds
   * at least six temperatures.
   */
  lemma FuelDtRows(tin: real, asms: seq<Asm>, name: string, i: nat)
    requires FuelDt(tin, asms, name).Some? && i < |FuelDt(tin, asms, name).value|
    ensures exists j :: && 0 <= j < |asms| && asms[j].name == name && asms[j].id == IdsOf(asms, name)[i]
                        && asms[j].pin.Some? && |asms[j].pin.value.fuelCl| >= 9
                        && FuelDt(tin, asms, name).value[i] == MergeClad(Diffs(FuelRow(tin, asms[j].pin.value)))
  {
    var rows := PeakRows(tin, asms, name, true, |asms|).value;
    var dt := DiffTable(rows).value;
    PeakRowsAt(tin, asms, name, true, |asms|, i);
    var j :| && 0 <= j < |asms| && asms[j].name == name && asms[j].id == IdsOf(asms, name)[i]
             && asms[j].pin.Some?
             && rows[i] == PeakRow(tin, asms[j].pin.value, true);
    assert |dt[i]| == |dt[0]| >= 6;
    assert |rows[i]| >= 7;
  }

  /**
   * The fuel row of an assembly gives five rises (coolant, film, whole clad,
   * gap, fuel) that add up to the peak fuel centreline temperature minus the
   * inlet temperature.
   */
  lemma FuelRowRises(tin: real, p: PinPeak)
    requires |p.fuelCl| >= 9
    ensures |Diffs(FuelRow(tin, p))| >= 6
    ensures var m := MergeClad(Diffs(FuelRow(tin, p)));
            |m| == 5 && Sum(m) == p.fuelCl[8] - tin
  {
    var row := FuelRow(tin, p);
    FuelMergedSum(row);
    assert row[6] == p.fuelCl[8];
  }

  // ---------------------------------------------------------------------
  // The fuel table as written: the assembly id is kept in the row
  // ---------------------------------------------------------------------

  /** The row `[a.id, T_in] + fuel_cl[2][3:]` the source builds. */
  function FuelRowAsWritten(tin: real, a: Asm): seq<real>
    requires a.pin.Some?
  {
    [a.id as real] + FuelRow(tin, a.pin.value)
  }

  /**
   * The fuel columns of one assembly as the source computes them: the
   * differences of the row with the id in front, clad columns merged.
   */
  function FuelDtRowAsWritten(tin: real, a: Asm): (r: Option<seq<real>>)
    requires a.pin.Some?
    ensures r.Some? ==> |r.value| == 5 && r.value[0] == tin - a.id as real
    ensures r.Some? ==> |a.pin.value.fuelCl| >= 8 && Sum(r.value) == a.pin.value.fuelCl[7] - a.id as real
  {
    var row := FuelRowAsWritten(tin, a);
    if |row| < 7 then None
    else
      FuelMergedSum(row);
      Some(MergeClad(Diffs(row)))
  }

  /**
   * With the id kept in the row, the first column is the inlet temperature
   * minus the id, the fuel rise is dropped, and the row no longer adds up to
   * the fuel centreline rise: for an assembly with id 1, inlet temperature 0
   * and profile temperatures 1..6, it adds up to 4 where the intended table
   * adds up to 6.
   */
  lemma FuelDtAsWrittenShifted()
    ensures var a := Asm(1, "fuel", Some(PinPeak([], [0.0, 0.0, 0.0, 1.0, 2.0, 3.0, 4.0, 5.0, 6.0])));
            && FuelDtRowAsWritten(0.0, a).Some?
            && FuelDtRowAsWritten(0.0, a).value[0] == -1.0
            && Sum(FuelDtRowAsWritten(0.0, a).value) == 4.0
            && Sum(MergeClad(Diffs(FuelRow(0.0, a.pin.value)))) == 6.0
  {
    var a := Asm(1, "fuel", Some(PinPeak([], [0.0, 0.0, 0.0, 1.0, 2.0, 3.0, 4.0, 5.0, 6.0])));
    assert FuelRowAsWritten(0.0, a) == [1.0, 0.0, 1.0, 2.0, 3.0, 4.0, 5.0, 6.0];
    FuelRowRises(0.0, a.pin.value);
  }

  // ---------------------------------------------------------------------
  // Sorting the assemblies by id (np.argsort)
  // ---------------------------------------------------------------------

  /** The positions 0, 1, ..., n - 1. */
  function Range(n: nat): (r: seq<nat>)
    ensures |r| == n && forall i :: 0 <= i < n ==> r[i] == i
  {
    if n == 0 then [] else Range(n - 1) + [n - 1]
  }

  /** `o` is an ordering of the positions 0 .. n - 1: each appears exactly once. */
  predicate IsPermutation(o: seq<nat>, n: nat)
  {
    |o| == n && multiset(o) == multiset(Range(n))
  }

  /** Every entry of `o` is a position of `keys`. */
  predicate Positions(keys: seq<int>, o: seq<nat>)
  {
    forall p :: 0 <= p < |o| ==> o[p] < |keys|
  }

  /** Taking the positions in the order `o` visits keys in non-decreasing order. */
  predicate SortedBy(keys: seq<int>, o: seq<nat>)
    requires Positions(keys, o)
  {
    forall p, q :: 0 <= p < q < |o| ==> keys[o[p]] <= keys[o[q]]
  }

  /** Inserts position j into the ordering `o`, after every position whose key is not greater. */
  function InsertPosition(keys: seq<int>, j: nat, o: seq<nat>): (r: seq<nat>)
    requires j < |keys| && Positions(keys, o)
    ensures Positions(keys, r)
  {
    if o == [] then [j]
    else if keys[j] < keys[o[0]] then [j] + o
    else [o[0]] + InsertPosition(keys, j, o[1..])
  }

  /** Insertion adds exactly the one position. */
  lemma {:induction false} InsertPositionAdds(keys: seq<int>, j: nat, o: seq<nat>)
    requires j < |keys| && Positions(keys, o)
    ensures multiset(InsertPosition(keys, j, o)) == multiset(o) + multiset{j}
    decreases |o|
  {
    if o != [] && keys[o[0]] <= keys[j] {
      InsertPositionAdds(keys, j, o[1..]);
      assert o == [o[0]] + o[1..];
    }
  }

  /** Insertion keeps the ordering sorted. */
  lemma {:induction false} InsertPositionSorted(keys: seq<int>, j: nat, o: seq<nat>)
    requires j < |keys| && Positions(keys, o) && SortedBy(keys, o)
    ensures SortedBy(keys, InsertPosition(keys, j, o))
    decreases |o|
  {
    var r := InsertPosition(keys, j, o);
    if o != [] && keys[o[0]] <= keys[j] {
      var rest := o[1..];
      InsertPositionSorted(keys, j, rest);
      InsertPositionAdds(keys, j, rest);
      var tail := InsertPosition(keys, j, rest);
      forall q | 0 <= q < |tail| ensures keys[o[0]] <= keys[tail[q]] {
        assert tail[q] in multiset(tail);
        assert tail[q] in multiset(rest) || tail[q] == j;
        if tail[q] != j {
          var p :| 0 <= p < |rest| && rest[p] == tail[q];
          assert o[p + 1] == tail[q];
        }
      }
      assert r == [o[0]] + tail;
    } else if o != [] {
      assert r == [j] + o;
    }
  }

  /** The positions 0 .. n - 1 of `keys` inserted one after the other. */
  function ArgSortPrefix(keys: seq<int>, n: nat): (o: seq<nat>)
    requires n <= |keys|
    ensures Positions(keys, o)
  {
    if n == 0 then [] else InsertPosition(keys, n - 1, ArgSortPrefix(keys, n - 1))
  }

  /** The prefix ordering holds each of the positions 0 .. n - 1 once. */
  lemma {:induction false} ArgSortPrefixPermutation(keys: seq<int>, n: nat)
    requires n <= |keys|
    ensures multiset(ArgSortPrefix(keys, n)) == multiset(Range(n))
  {
    if n > 0 {
      var prev, last: nat := ArgSortPrefix(keys, n - 1), n - 1;
      ArgSortPrefixPermutation(keys, last);
      InsertPositionAdds(keys, last, prev);
      assert Range(n) == Range(last) + [last];
    }
  }

  /** np.argsort of a list of ids; ties keep their original order. */
  function ArgSort(keys: seq<int>): seq<nat>
  {
    ArgSortPrefix(keys, |keys|)
  }

  /** The prefix orderings are sorted. */
  lemma {:induction false} ArgSortPrefixSorted(keys: seq<int>, n: nat)
    requires n <= |keys|
    ensures SortedBy(keys, ArgSortPrefix(keys, n))
  {
    if n > 0 {
      ArgSortPrefixSorted(keys, n - 1);
      InsertPositionSorted(keys, n - 1, ArgSortPrefix(keys, n - 1));
    }
  }

  /** `s` read in the order `o`: `[s[i] for i in order]`. */
  function Gather<T>(s: seq<T>, o: seq<nat>): (r: seq<T>)
    requires forall p :: 0 <= p < |o| ==> o[p] < |s|
    ensures |r| == |o| && forall p :: 0 <= p < |o| ==> r[p] == s[o[p]]
  {
    seq(|o|, p requires 0 <= p < |o| => s[o[p]])
  }

  /** The argsort of a list is an ordering of its positions that puts the list in ascending order. */
  lemma ArgSortSorts(keys: seq<int>)
    ensures IsPermutation(ArgSort(keys), |keys|)
    ensures Positions(keys, ArgSort(keys))
    ensures forall p, q :: 0 <= p < q < |keys| ==> Gather(keys, ArgSort(keys))[p] <= Gather(keys, ArgSort(keys))[q]
  {
    var o := ArgSort(keys);
    ArgSortPrefixPermutation(keys, |keys|);
    assert |o| == |multiset(Range(|keys|))| == |keys|;
    ArgSortPrefixSorted(keys, |keys|);
  }

  // ---------------------------------------------------------------------
  // Collecting and sorting the per-assembly results
  // ---------------------------------------------------------------------

  /**
   * The hot-spot options of one assembly type: the path of its clad and of
   * its fuel hot-channel-factor table, when given.
   */
  datatype HotspotOptions = HotspotOptions(cladTable: Option<string>, fuelTable: Option<string>)

  /** An assembly type name with its options, in the order of the options dictionary. */
  type TypeOptions = (string, HotspotOptions)

  /** Python truthiness of an optional string: present and non-empty. */
  predicate Truthy(t: Option<string>)
  {
    t.Some? && t.value != ""
  }

  /** The type asks for a hot-spot analysis: one of its two tables is given. */
  predicate Requested(h: HotspotOptions)
  {
    Truthy(h.cladTable) || Truthy(h.fuelTable)
  }

  /**
   * The peak temperature of one assembly computed from the table at the
   * given path, the inlet temperature and the assembly's temperature rises.
   */
  type PeakModel = (string, real, seq<real>) -> real

  /** `np.zeros(n)`. */
  function Zeros(n: nat): (z: seq<real>)
    ensures |z| == n && forall i :: 0 <= i < n ==> z[i] == 0.0
  {
    seq(n, _ => 0.0)
  }

  /** The peak temperature of every row of a table of rises. */
  function PeakOfRows(peak: PeakModel, table: string, tin: real, dt: seq<seq<real>>): (v: seq<real>)
    ensures |v| == |dt| && forall a :: 0 <= a < |dt| ==> v[a] == peak(table, tin, dt[a])
  {
    seq(|dt|, a requires 0 <= a < |dt| => peak(table, tin, dt[a]))
  }

  /**
   * The clad (fuel = false) or fuel peak temperatures of the assemblies of
   * one type: zeros when the type gives no table, None when the table of
   * rises cannot be built.
   */
  function TypePeaks(tin: real, asms: seq<Asm>, name: string, table: Option<string>, fuel: bool, peak: PeakModel)
    : (r: Option<seq<real>>)
    ensures r.Some? ==> |r.value| == |IdsOf(asms, name)|
  {
    if table.None? then Some(Zeros(|IdsOf(asms, name)|))
    else
      var dt := if fuel then FuelDt(tin, asms, name) else CladDt(tin, asms, name);
      if dt.None? then None else Some(PeakOfRows(peak, table.value, tin, dt.value))
  }

  /** The ids collected from the first k types. */
  function CollectedIds(types: seq<TypeOptions>, asms: seq<Asm>, k: nat): seq<int>
    requires k <= |types|
  {
    if k == 0 then []
    else CollectedIds(types, asms, k - 1) + (if Requested(types[k - 1].1) then IdsOf(asms, types[k - 1].0) else [])
  }

  /** The type names collected from the first k types, one per collected id. */
  function CollectedNames(types: seq<TypeOptions>, asms: seq<Asm>, k: nat): (r: seq<string>)
    requires k <= |types|
    ensures |r| == |CollectedIds(types, asms, k)|
  {
    if k == 0 then []
    else
      var name := types[k - 1].0;
      CollectedNames(types, asms, k - 1)
        + (if Requested(types[k - 1].1) then seq(|IdsOf(asms, name)|, _ => name) else [])
  }

  /** The table chosen by `fuel`. */
  function Table(h: HotspotOptions, fuel: bool): Option<string>
  {
    if fuel then h.fuelTable else h.cladTable
  }

  /** The per-type peak vectors collected from the first k types; None once one of them fails. */
  function CollectedPeaks(types: seq<TypeOptions>, asms: seq<Asm>, tin: real, peak: PeakModel, fuel: bool, k: nat)
    : Option<seq<seq<real>>>
    requires k <= |types|
  {
    if k == 0 then Some([])
    else
      var prev := CollectedPeaks(types, asms, tin, peak, fuel, k - 1);
      var (name, h) := types[k - 1];
      if prev.None? || !Requested(h) then prev
      else
        var v := TypePeaks(tin, asms, name, Table(h, fuel), fuel, peak);
        if v.None? then None else Some(prev.value + [v.value])
  }

  /** The concatenated peak vectors have one entry per collected id. */
  lemma {:induction false} CollectedPeaksLength(types: seq<TypeOptions>, asms: seq<Asm>, tin: real, peak: PeakModel,
                                                fuel: bool, k: nat)
    requires k <= |types| && CollectedPeaks(types, asms, tin, peak, fuel, k).Some?
    ensures |Concat(CollectedPeaks(types, asms, tin, peak, fuel, k).value)| == |CollectedIds(types, asms, k)|
  {
    if k > 0 {
      CollectedPeaksLength(types, asms, tin, peak, fuel, k - 1);
      var (name, h) := types[k - 1];
      if Requested(h) {
        var prev := CollectedPeaks(types, asms, tin, peak, fuel, k - 1).value;
        var v := TypePeaks(tin, asms, name, Table(h, fuel), fuel, peak).value;
        assert CollectedPeaks(types, asms, tin, peak, fuel, k).value == prev + [v];
        ConcatAppend(prev, v);
        assert |v| == |IdsOf(asms, name)|;
        assert CollectedIds(types, asms, k) == CollectedIds(types, asms, k - 1) + IdsOf(asms, name);
      }
    }
  }

  /** Once one type has failed the collection stays failed. */
  lemma {:induction false} CollectedPeaksNoneStays(types: seq<TypeOptions>, asms: seq<Asm>, tin: real, peak: PeakModel,
                                                   fuel: bool, k: nat, m: nat)
    requires k <= m <= |types| && CollectedPeaks(types, asms, tin, peak, fuel, k).None?
    ensures CollectedPeaks(types, asms, tin, peak, fuel, m).None?
    decreases m - k
  {
    if k < m {
      CollectedPeaksNoneStays(types, asms, tin, peak, fuel, k, m - 1);
    }
  }

  /** Once the clad or the fuel collection has failed, it is failed over all types. */
  lemma CollectedNoneStays(types: seq<TypeOptions>, asms: seq<Asm>, tin: real, peak: PeakModel, k: nat)
    requires k <= |types|
    requires CollectedPeaks(types, asms, tin, peak, false, k).None? || CollectedPeaks(types, asms, tin, peak, true, k).None?
    ensures CollectedPeaks(types, asms, tin, peak, false, |types|).None? || CollectedPeaks(types, asms, tin, peak, true, |types|).None?
  {
    if CollectedPeaks(types, asms, tin, peak, false, k).None? {
      CollectedPeaksNoneStays(types, asms, tin, peak, false, k, |types|);
    } else {
      CollectedPeaksNoneStays(types, asms, tin, peak, true, k, |types|);
    }
  }

  /** What the analysis returns: per assembly, sorted by id, its clad and fuel peak temperatures, id and type name. */
  datatype Analysis = Analysis(cladMw: seq<real>, fuelCl: seq<real>, ids: seq<int>, names: seq<string>)

  /**
   * The analysis over all types: None when a table of rises cannot be
   * built; otherwise the collected ids, names and peak temperatures, all
   * read in the order that sorts the ids.
   */
  function AnalyzeSpec(types: seq<TypeOptions>, asms: seq<Asm>, tin: real, peak: PeakModel): Option<Analysis>
  {
    var n := |types|;
    var clad := CollectedPeaks(types, asms, tin, peak, false, n);
    var fuel := CollectedPeaks(types, asms, tin, peak, true, n);
    if clad.None? || fuel.None? then None
    else
      var ids := CollectedIds(types, asms, n);
      var o := ArgSort(ids);
      CollectedPeaksLength(types, asms, tin, peak, false, n);
      CollectedPeaksLength(types, asms, tin, peak, true, n);
      ArgSortSorts(ids);
      Some(Analysis(Gather(Concat(clad.value), o), Gather(Concat(fuel.value), o),
                    Gather(ids, o), Gather(CollectedNames(types, asms, n), o)))
  }

  /**
   * The clad and fuel peak temperatures of the assemblies of one type, each
   * a vector of zeros when its table is not given; not ok when a table of
   * rises cannot be built.
   */
  method TypeTemperatures(tin: real, asms: seq<Asm>, name: string, h: HotspotOptions, peak: PeakModel)
    returns (ok: bool, cladPeaks: seq<real>, fuelPeaks: seq<real>)
    ensures ok <==> TypePeaks(tin, asms, name, h.cladTable, false, peak).Some?
                    && TypePeaks(tin, asms, name, h.fuelTable, true, peak).Some?
    ensures ok ==> && cladPeaks == TypePeaks(tin, asms, name, h.cladTable, false, peak).value
                   && fuelPeaks == TypePeaks(tin, asms, name, h.fuelTable, true, peak).value
  {
    var n := |IdsOf(asms, name)|;
    cladPeaks, fuelPeaks := Zeros(n), Zeros(n);
    if h.cladTable.Some? {
      var dt := GetCladPeakDt(tin, asms, name);
      if dt.None? {
        return false, cladPeaks, fuelPeaks;
      }
      cladPeaks := PeakOfRows(peak, h.cladTable.value, tin, dt.value);
    }
    if h.fuelTable.Some? {
      var dt := GetFuelPeakDt(tin, asms, name);
      if dt.None? {
        return false, cladPeaks, fuelPeaks;
      }
      fuelPeaks := PeakOfRows(peak, h.fuelTable.value, tin, dt.value);
    }
    ok := true;
  }

  /** One pass of the collection loop: the entries of type k appended to those of the types before it. */
  method CollectType(types: seq<TypeOptions>, asms: seq<Asm>, tin: real, peak: PeakModel, k: nat,
                     ids: seq<int>, names: seq<string>, clads: seq<seq<real>>, fuels: seq<seq<real>>)
    returns (ok: bool, ids': seq<int>, names': seq<string>, clads': seq<seq<real>>, fuels': seq<seq<real>>)
    requires k < |types|
    requires ids == CollectedIds(types, asms, k) && names == CollectedNames(types, asms, k)
    requires CollectedPeaks(types, asms, tin, peak, false, k) == Some(clads)
    requires CollectedPeaks(types, asms, tin, peak, true, k) == Some(fuels)
    ensures ok <==> CollectedPeaks(types, asms, tin, peak, false, k + 1).Some?
                    && CollectedPeaks(types, asms, tin, peak, true, k + 1).Some?
    ensures ok ==> && ids' == CollectedIds(types, asms, k + 1) && names' == CollectedNames(types, asms, k + 1)
                   && CollectedPeaks(types, asms, tin, peak, false, k + 1) == Some(clads')
                   && CollectedPeaks(types, asms, tin, peak, true, k + 1) == Some(fuels')
  {
    ok, ids', names', clads', fuels' := true, ids, names, clads, fuels;
    var (name, h) := types[k];
    if Requested(h) {
      var typeIds := IdsOf(asms, name);
      ids' := ids + typeIds;
      names' := names + seq(|typeIds|, _ => name);
      var cladPeaks, fuelPeaks;
      ok, cladPeaks, fuelPeaks := TypeTemperatures(tin, asms, name, h, peak);
      clads' := clads + [cladPeaks];
      fuels' := fuels + [fuelPeaks];
    }
  }

  /**
   * The collection loop of the analysis: walks the types in order, skips
   * those that ask for nothing, and collects the ids and names of their
   * assemblies and their clad and fuel peak temperatures.
   */
  method Collect(types: seq<TypeOptions>, asms: seq<Asm>, tin: real, peak: PeakModel)
    returns (ok: bool, ids: seq<int>, names: seq<string>, clads: seq<seq<real>>, fuels: seq<seq<real>>)
    ensures ok <==> CollectedPeaks(types, asms, tin, peak, false, |types|).Some?
                    && CollectedPeaks(types, asms, tin, peak, true, |types|).Some?
    ensures ok ==> && ids == CollectedIds(types, asms, |types|)
                   && names == CollectedNames(types, asms, |types|)
                   && clads == CollectedPeaks(types, asms, tin, peak, false, |types|).value
                   && fuels == CollectedPeaks(types, asms, tin, peak, true, |types|).value
  {
    ids, names, clads, fuels := [], [], [], [];
    var k := 0;
    while k < |types|
      invariant 0 <= k <= |types|
      invariant ids == CollectedIds(types, asms, k)
      invariant names == CollectedNames(types, asms, k)
      invariant CollectedPeaks(types, asms, tin, peak, false, k) == Some(clads)
      invariant CollectedPeaks(types, asms, tin, peak, true, k) == Some(fuels)
    {
      ok, ids, names, clads, fuels := CollectType(types, asms, tin, peak, k, ids, names, clads, fuels);
      if !ok {
        CollectedNoneStays(types, asms, tin, peak, k + 1);
        return;
      }
      k := k + 1;
    }
    assert k == |types|;
    ok := true;
  }

  /**
   * The hot-spot analysis: the collected ids, names and peak temperatures,
   * sorted by id.
   */
  method Analyze(types: seq<TypeOptions>, asms: seq<Asm>, tin: real, peak: PeakModel) returns (r: Option<Analysis>)
    ensures r == AnalyzeSpec(types, asms, tin, peak)
  {
    var ok, ids, names, clads, fuels := Collect(types, asms, tin, peak);
    if !ok {
      return None;
    }
    var order := ArgSort(ids);
    CollectedPeaksLength(types, asms, tin, peak, false, |types|);
    CollectedPeaksLength(types, asms, tin, peak, true, |types|);
    ArgSortSorts(ids);
    r := Some(Analysis(Gather(Concat(clads), order), Gather(Concat(fuels), order), Gather(ids, order), Gather(names, order)));
  }

  /** Every collected id of a type belongs to an assembly of that type. */
  lemma {:induction false} TypeIdsFrom(asms: seq<Asm>, name: string, k: nat, i: nat)
    requires k <= |asms| && i < |TypeIds(asms, name, k)|
    ensures exists j :: 0 <= j < k && asms[j].name == name && asms[j].id == TypeIds(asms, name, k)[i]
  {
    if i < |TypeIds(asms, name, k - 1)| {
      TypeIdsFrom(asms, name, k - 1, i);
    } else {
      assert TypeIds(asms, name, k)[i] == asms[k - 1].id;
    }
  }

  /** Every assembly of a type has its id collected. */
  lemma {:induction false} TypeIdsComplete(asms: seq<Asm>, name: string, k: nat, j: nat)
    requires j < k <= |asms| && asms[j].name == name
    ensures asms[j].id in TypeIds(asms, name, k)
  {
    if j < k - 1 {
      TypeIdsComplete(asms, name, k - 1, j);
    }
  }

  /** Each collected id belongs to an assembly of a requested type, whose name is collected beside it. */
  lemma {:induction false} CollectedFrom(types: seq<TypeOptions>, asms: seq<Asm>, k: nat, i: nat)
    requires k <= |types| && i < |CollectedIds(types, asms, k)|
    ensures exists t, j :: && 0 <= t < k && 0 <= j < |asms| && Requested(types[t].1)
                           && asms[j].name == types[t].0
                           && asms[j].id == CollectedIds(types, asms, k)[i]
                           && CollectedNames(types, asms, k)[i] == types[t].0
  {
    var prev := CollectedIds(types, asms, k - 1);
    if i < |prev| {
      CollectedFrom(types, asms, k - 1, i);
      var t, j :| && 0 <= t < k - 1 && 0 <= j < |asms| && Requested(types[t].1)
                  && asms[j].name == types[t].0
                  && asms[j].id == prev[i]
                  && CollectedNames(types, asms, k - 1)[i] == types[t].0;
      assert CollectedNames(types, asms, k)[i] == types[t].0;
    } else {
      var name := types[k - 1].0;
      TypeIdsFrom(asms, name, |asms|, i - |prev|);
      assert CollectedNames(types, asms, k)[i] == name;
    }
  }

  /** Every assembly of a requested type among the first k has its id collected. */
  lemma {:induction false} CollectedComplete(types: seq<TypeOptions>, asms: seq<Asm>, k: nat, t: nat, j: nat)
    requires t < k <= |types| && j < |asms| && Requested(types[t].1) && asms[j].name == types[t].0
    ensures asms[j].id in CollectedIds(types, asms, k)
  {
    if t < k - 1 {
      CollectedComplete(types, asms, k - 1, t, j);
    } else {
      TypeIdsComplete(asms, types[t].0, |asms|, j);
    }
  }

  /** The analysis lists the assemblies in ascending id order, one entry per collected id in every column. */
  lemma AnalysisSorted(types: seq<TypeOptions>, asms: seq<Asm>, tin: real, peak: PeakModel)
    requires AnalyzeSpec(types, asms, tin, peak).Some?
    ensures var r := AnalyzeSpec(types, asms, tin, peak).value;
            && |r.cladMw| == |r.fuelCl| == |r.ids| == |r.names| == |CollectedIds(types, asms, |types|)|
            && forall p, q :: 0 <= p < q < |r.ids| ==> r.ids[p] <= r.ids[q]
  {
    ArgSortSorts(CollectedIds(types, asms, |types|));
  }

  /** Each listed id is that of an assembly of a requested type, listed beside its type name. */
  lemma AnalysisEntriesRequested(types: seq<TypeOptions>, asms: seq<Asm>, tin: real, peak: PeakModel, p: nat)
    requires AnalyzeSpec(types, asms, tin, peak).Some? && p < |AnalyzeSpec(types, asms, tin, peak).value.ids|
    ensures var r := AnalyzeSpec(types, asms, tin, peak).value;
            exists t, j :: && 0 <= t < |types| && 0 <= j < |asms| && Requested(types[t].1)
                           && asms[j].name == types[t].0 == r.names[p] && asms[j].id == r.ids[p]
  {
    var ids := CollectedIds(types, asms, |types|);
    ArgSortSorts(ids);
    CollectedFrom(types, asms, |types|, ArgSort(ids)[p]);
  }

  /** Every assembly of a requested type is listed: a skipped type is one that requests nothing. */
  lemma AnalysisCoversRequested(types: seq<TypeOptions>, asms: seq<Asm>, tin: real, peak: PeakModel, t: nat, j: nat)
    requires AnalyzeSpec(types, asms, tin, peak).Some?
    requires t < |types| && j < |asms| && Requested(types[t].1) && asms[j].name == types[t].0
    ensures asms[j].id in AnalyzeSpec(types, asms, tin, peak).value.ids
  {
    var ids := CollectedIds(types, asms, |types|);
    var o := ArgSort(ids);
    ArgSortSorts(ids);
    CollectedComplete(types, asms, |types|, t, j);
    var i :| 0 <= i < |ids| && ids[i] == asms[j].id;
    assert Range(|ids|)[i] == i;
    assert i in multiset(Range(|ids|));
    assert i in multiset(o);
    var p :| 0 <= p < |o| && o[p] == i;
    assert AnalyzeSpec(types, asms, tin, peak).value.ids[p] == asms[j].id;
  }

  /** The analysis reads ids, names and both temperature tables through the same permutation. */
  lemma AnalysisPermutesAlike(types: seq<TypeOptions>, asms: seq<Asm>, tin: real, peak: PeakModel)
    requires AnalyzeSpec(types, asms, tin, peak).Some?
    ensures var n := |types|;
            var r := AnalyzeSpec(types, asms, tin, peak).value;
            var ids := CollectedIds(types, asms, n);
            var names := CollectedNames(types, asms, n);
            var clad := Concat(CollectedPeaks(types, asms, tin, peak, false, n).value);
            var fuel := Concat(CollectedPeaks(types, asms, tin, peak, true, n).value);
            exists o :: && IsPermutation(o, |ids|) && |clad| == |fuel| == |ids|
                        && (forall p :: 0 <= p < |o| ==> o[p] < |ids|)
                        && r.ids == Gather(ids, o) && r.names == Gather(names, o)
                        && r.cladMw == Gather(clad, o) && r.fuelCl == Gather(fuel, o)
  {
    var n := |types|;
    var ids := CollectedIds(types, asms, n);
    ArgSortSorts(ids);
    CollectedPeaksLength(types, asms, tin, peak, false, n);
    CollectedPeaksLength(types, asms, tin, peak, true, n);
    var o := ArgSort(ids);
    assert forall p :: 0 <= p < |o| ==> o[p] < |ids|;
  }

  // ---------------------------------------------------------------------
  // The per-assembly tables as written: np.vstack of the per-type vectors
  // ---------------------------------------------------------------------

  /**
   * `np.vstack(vectors)[order]`: the per-type vectors become the rows of a
   * matrix (None when there is none or they differ in length), and the
   * per-assembly ordering then selects rows of it (None when it names a row
   * past the number of types).
   */
  function StackAsWritten(vectors: seq<seq<real>>, order: seq<nat>): (r: Option<seq<seq<real>>>)
    ensures r.Some? ==> |r.value| == |order| && forall p :: 0 <= p < |order| ==> order[p] < |vectors|
    ensures r.Some? ==> forall p :: 0 <= p < |order| ==> r.value[p] == vectors[order[p]]
  {
    if |vectors| == 0 || !Rectangular(vectors) then None
    else if exists p :: 0 <= p < |order| && order[p] >= |vectors| then None
    else Some(Gather(vectors, order))
  }

  /**
   * A single type with two assemblies, ids 7 and 3: the stacked matrix has
   * one row, so reading it in the order of the two assemblies fails, while
   * concatenating the vectors lists both temperatures in id order.
   */
  lemma StackAsWrittenFails()
    ensures ArgSort([7, 3]) == [1, 0]
    ensures StackAsWritten([[10.0, 20.0]], ArgSort([7, 3])).None?
    ensures Gather(Concat([[10.0, 20.0]]), ArgSort([7, 3])) == [20.0, 10.0]
  {
    var keys := [7, 3];
    assert ArgSortPrefix(keys, 0) == [];
    assert ArgSortPrefix(keys, 1) == [0];
    assert InsertPosition(keys, 1, [0]) == [1, 0];
    assert ArgSort(keys) == [1, 0];
    var vs := [[10.0, 20.0]];
    assert Concat(vs) == [10.0, 20.0] by {
      assert vs[..0] == [];
    }
    var o := [1, 0];
    assert o[0] >= |vs|;
  }

  /**
   * In general: T types whose vectors all have n >= 2 entries hold n·T
   * assemblies, so the per-assembly order names the row n·T - 1, past the T
   * rows of the stacked matrix, and the as-written stacking always fails.
   */
  lemma StackAsWrittenFailsForSharedTypes(vectors: seq<seq<real>>, ids: seq<int>)
    requires |vectors| > 0 && Rectangular(vectors) && |vectors[0]| >= 2
    requires |ids| == |vectors| * |vectors[0]|
    ensures StackAsWritten(vectors, ArgSort(ids)).None?
  {
    var t, n := |vectors|, |vectors[0]|;
    assert t * n >= t * 2 by {
      assert t * n - t * 2 == t * (n - 2);
    }
    var o := ArgSort(ids);
    var last := |ids| - 1;
    ArgSortPrefixPermutation(ids, |ids|);
    assert last in multiset(o) by {
      assert Range(|ids|)[last] == last;
    }
    var p :| 0 <= p < |o| && o[p] == last;
    assert o[p] >= |vectors|;
  }
}
