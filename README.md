# DASSH sweep planning, perimeter remapping and hot-spot post-processing in Dafny

This project models the sequential core of DASSH, a subchannel code for the coolant and duct
temperatures of hexagonal fast-reactor assemblies, and proves properties of that model. It
covers three groups of logic.

- **The axial mesh planner of the `Reactor` object** (`dassh/reactor.py`), in module `AxialMesh`:
  - the mandatory axial boundary planes (`_setup_axial_region_bnds`);
  - the global axial step (`_setup_overall_axial_mesh_req`);
  - the step truncation at region boundaries (`_check_dz`);
  - the march that builds the `z`/`dz` arrays (`_setup_zpts`).

  Every length is an integer number of picometres. The source rounds every position to 12
  decimals, so on this grid its arithmetic is exact. `np.around` is modelled as rounding half to
  even.
- **The stateful rules of the sweep** (`dassh/reactor.py`), in module `Reactor`:
  - power normalisation (`_setup_scale_asm_power`), scaling an array of assembly power records
    in place;
  - the temperature `reset`;
  - the low-flow convection approximation and its one-way `_lowflow` flag
    (`_setup_asm_axial_mesh_req`);
  - the dump accumulator (`_determine_whether_to_dump_data`);
  - the progress counter of `temperature_sweep`;
  - the order of the collaborator calls in `axial_step`;
  - `get_rod_bundle_bnds`.

  The reactor is a class whose sweep methods update its fields. The gap and assembly solvers
  are methods that record their calls in a `trace` field.
- **The hexagonal-perimeter remapping `approximate_temps`** (`dassh/reactor.py`), in module
  `Perimeter`. The Legendre least-squares fit is a function parameter.
- **Hot-spot post-processing** (`dassh/hotspot.py`), in module `Hotspot`:
  - the header check of a hot-channel-factor table;
  - the expression counter;
  - the clad and fuel temperature-rise tables;
  - the collection and id sort of `analyze`.

  The peak-temperature computation from a table is a function parameter.

`Common` holds the shared helpers: `Option`, half-to-even rounding, minimum, sequence scaling,
sums and decimal rendering.

## Model

| member | source | states |
|---|---|---|
| Common.RoundHalfEven | dassh/reactor.py:401 | The result is within 0.5 of the input, and an exact half goes to the even neighbour (`np.around`). |
| Common.RoundIntegerExact | dassh/reactor.py:1042 | Rounding a value already on the grid leaves it unchanged. |
| Common.Min | dassh/reactor.py:1001 | The minimum of a non-empty list is one of its elements and no larger than any of them (`np.min`). |
| Common.NatToString | dassh/hotspot.py:329 | The decimal rendering of a column number is non-empty and made of digits. |
| Common.SumScale | dassh/reactor.py:580-581 | Scaling every term scales the sum by the same factor. |
| AxialMesh.Round12 | dassh/reactor.py:401 | A length in metres rounded to 12 decimals is within half a picometre of the exact value. |
| AxialMesh.Flatten | dassh/reactor.py:384-387 | The planes of the user power profiles are exactly the planes of some profile. |
| AxialMesh.TypePlanes | dassh/reactor.py:389-394 | The planes of one assembly type are exactly the lower and upper plane of each of its regions. |
| AxialMesh.RegionPlanes | dassh/reactor.py:389-394 | A plane is collected exactly when it is a region plane of some assembly type. |
| AxialMesh.ScaledPlanes | dassh/reactor.py:380-381 | The flux-solver fine mesh converted from cm holds exactly the given planes times 0.01. |
| AxialMesh.CandidatePlanes | dassh/reactor.py:377-398 | A plane is a candidate exactly when it is a flux-solver fine-mesh plane times 0.01, a plane of some user power profile, a region plane of some assembly type, or a user-requested plane. |
| AxialMesh.Insert | dassh/reactor.py:401 | Inserting into a strictly increasing list keeps it strictly increasing, and adds exactly the new value. |
| AxialMesh.SortedUnique | dassh/reactor.py:401 | `np.unique` gives a strictly increasing list with the same values as its input. |
| AxialMesh.RoundAll | dassh/reactor.py:401 | Every candidate is rounded to the picometre grid, position by position. |
| AxialMesh.RoundAllImage | dassh/reactor.py:401 | The rounded list holds exactly the roundings of the candidates. |
| AxialMesh.LastIsMax | dassh/reactor.py:403 | The last element of a strictly increasing list is its largest. |
| AxialMesh.FlooredMin | dassh/reactor.py:1001 | `np.floor(np.min(dz) * 1e6) / 1e6` in picometres. OverallReqDz characterises it: the step never exceeds any requirement, and is positive for requirements of at least a micrometre. |
| AxialMesh.AxialRegionBounds | dassh/reactor.py:364-403 | It fails exactly when there is no candidate plane. Otherwise: the boundaries rise strictly; they are exactly the rounded candidates; the core length is one of them and the largest. |
| AxialMesh.OverallReqDz | dassh/reactor.py:996-1020 | It fails exactly on an empty requirement list. A user size is adopted exactly when it is at most the floored minimum. Otherwise the step is the smaller of the 0.01 m ceiling and the floored minimum. The step never exceeds any assembly's requirement. It is positive whenever the requirement is at least a micrometre (and an accepted user size is positive). |
| AxialMesh.Crosses | dassh/reactor.py:1066-1067 | `z < bi and z + req_dz > bi`: a full step would pass boundary bi. FirstCrossing and CheckDzTruncates characterise it. |
| AxialMesh.FirstCrossing | dassh/reactor.py:1066-1072 | It gives the first boundary in list order that a full step would cross, or -1 exactly when none is crossed. |
| AxialMesh.CheckDz | dassh/reactor.py:1045-1073 | With a positive requirement, the step is positive and at most the requirement. |
| AxialMesh.CheckDzTruncates | dassh/reactor.py:1066-1073 | The full step is taken exactly when no boundary lies strictly inside it. Otherwise the step is shorter and lands on a boundary. On sorted boundaries, no boundary is jumped over. |
| AxialMesh.MeshPoints | dassh/reactor.py:1035-1043 | The loop gives z[0] = 0, \|dz\| = \|z\| - 1 and z[i+1] = z[i] + dz[i], with each step chosen by the truncation. Every step starts below the core length. The march ends at or past the core length, and exactly at it when the core length is the largest boundary. |
| AxialMesh.Marched | dassh/reactor.py:1038-1043 | The state of the `_setup_zpts` loop after any number of passes: z starts at 0, each dz is the truncated step, and each step starts below the core length. MarchIncreases, MarchNeverStraddles and NonPositiveStepStalls characterise it. |
| AxialMesh.NonPositiveStepStalls | dassh/reactor.py:1038-1041 | With a step of 0 or less, every step of the march as written is that step, no position rises above 0, and for a core of positive length the loop condition never becomes false. |
| AxialMesh.SubMicrometreRequirementStalls | dassh/reactor.py:1001-1041 | A requirement of 5e-7 m floors to a step of 0, which the planner keeps with no user size. `_check_dz` then returns 0, and a march of one zero step is still below the core length. |
| AxialMesh.PlannedStep | dassh/reactor.py:996-1020 | Corrected definition (see ## Findings): the global step when it is positive, refused otherwise. It is planned whenever every requirement is at least a micrometre and any user size is positive. |
| AxialMesh.PlanMesh | dassh/reactor.py:996-1043 | Corrected definition (see ## Findings): it fails exactly when the step is refused. Otherwise the march from the planned step reaches the core length, and lands on it when the core length is the largest boundary. |
| AxialMesh.MarchIncreases | dassh/reactor.py:1038-1043 | Every step of the march is in (0, req], and the positions rise strictly. |
| AxialMesh.MarchNeverStraddles | dassh/reactor.py:1038-1043 | On sorted boundaries, no boundary lies strictly between two consecutive mesh positions. |
| AxialMesh.StepStaysInCore | dassh/reactor.py:1038-1040 | A step taken below the core length never overshoots it, when the core length is the largest boundary. |
| AxialMesh.EveryBoundaryIsMeshPoint | dassh/reactor.py:1038-1043 | If a march from 0 never straddles a boundary, every boundary in (0, last position] is a mesh position. |
| AxialMesh.PlannedMeshHitsEveryBoundary | dassh/reactor.py:1035-1043 | The planned mesh rises strictly from 0, ends at the core length, and contains every boundary above 0. |
| Perimeter.Prev | dassh/reactor.py:1742 | The cyclic roll by one: side s is preceded by side s - 1, and side 0 by side 5. |
| Perimeter.Corner | dassh/reactor.py:1742 | The corner of side s: the last sample of that side (`ym[:, -1]`). CornersPreserved states that the remap keeps it. |
| Perimeter.ChopShape | dassh/reactor.py:1741 | A profile of k blocks of w reshapes into k rows of w. |
| Perimeter.Chop | dassh/reactor.py:1741 | The reshape into rows of w samples. ChopShape, ChopConcat and ConcatChop characterise it. |
| Perimeter.ChopConcat | dassh/reactor.py:1779-1780 | Flattening rows of width w and reshaping into rows of w gives the rows back. |
| Perimeter.ConcatChop | dassh/reactor.py:1741 | Reshaping a profile of k blocks of w and flattening gives the profile back. |
| Perimeter.UnitChop | dassh/reactor.py:1741 | Reshaped into rows of one sample, row i is the single sample i. |
| Perimeter.Sides | dassh/reactor.py:1740-1741 | The reshape gives six sides of \|y\| / 6 samples each. |
| Perimeter.ReshapeRoundTrip | dassh/reactor.py:1741 | A profile whose length is a multiple of six is the six sides laid end to end. |
| Perimeter.Dressed | dassh/reactor.py:1740-1744 | Each dressed side is the previous side's corner (after the roll) followed by the side, and it ends at its own corner. |
| Perimeter.Ramp | dassh/reactor.py:1749 | `np.linspace` without its first point has n - 1 entries. |
| Perimeter.Lerp | dassh/reactor.py:1749 | Point k of `np.linspace(a, b, n)`. LerpEnds characterises it. |
| Perimeter.Tails | dassh/reactor.py:1779 | Dropping the prepended column removes exactly the first entry of each row. |
| Perimeter.DropFirstAndFlatten | dassh/reactor.py:1779-1780 | `y_new[:, 1:].flatten()`. SidesOfDropped and DroppedCorners characterise it. |
| Perimeter.SidesOfDropped | dassh/reactor.py:1779-1780 | Dropping and flattening six rows of w + 1 gives 6w samples whose sides are the rows without their first entries. |
| Perimeter.DroppedCorners | dassh/reactor.py:1779-1780 | After dropping and flattening, the corner of side s is the last entry of row s. |
| Perimeter.LinearRows | dassh/reactor.py:1748-1750 | The corners-only source gives six interpolated rows of the target length. |
| Perimeter.CornerRows | dassh/reactor.py:1754-1755 | The corners-only target gives each side's first and last dressed value. |
| Perimeter.FittedRows | dassh/reactor.py:1765-1776 | The fitted rows have the target length, and each ends at the exact corner of its dressed side. |
| Perimeter.RemappedRows | dassh/reactor.py:1748-1776 | Whichever branch applies, the result is six rows of the target length. |
| Perimeter.ApproximateTemps | dassh/reactor.py:1703-1780 | Equal meshes return y unchanged. Otherwise the remap succeeds exactly when y reshapes into six non-empty sides and one of the three branches can run: a corners-only source, a corners-only target, or a fit given one position per dressed sample and a target position. |
| Perimeter.ApproximateTempsFlattensRows | dassh/reactor.py:1739-1780 | Outside the identity case, a successful remap is the flattened remapped rows without their first column. |
| Perimeter.LerpEnds | dassh/reactor.py:1749 | `np.linspace(a, b, n)` starts at a and ends at b. |
| Perimeter.LinearRowsEnd | dassh/reactor.py:1748-1750 | Each interpolated row ends at the second dressed value of its side. |
| Perimeter.RowsEndAtCorners | dassh/reactor.py:1748-1776 | In every branch, the remapped rows end at the last dressed value of their side. |
| Perimeter.RemapShape | dassh/reactor.py:1735-1780 | A well-formed profile (6(\|x\| - 1) samples) with a non-empty target always remaps, to 6(\|x_new\| - 1) samples. |
| Perimeter.RemappedCorners | dassh/reactor.py:1776-1780 | After dropping and flattening, the remapped rows keep the dressed sides' corners. |
| Perimeter.CornersPreserved | dassh/reactor.py:1740-1780 | Remapping a well-formed profile onto two or more positions keeps all six corner temperatures exactly, in every branch including the fit. |
| Perimeter.LinearTails | dassh/reactor.py:1748-1750 | Without its first point, each interpolated row is the ramp between the side's two first dressed values. |
| Perimeter.TwoPointSourceIsLinearRamp | dassh/reactor.py:1742-1750 | With a corners-only source, side s is the linear ramp from the previous side's corner to the first sample of side s, taken at the target points after the first. With one sample per side, that ramp runs from corner to corner. |
| Perimeter.DroppedPairs | dassh/reactor.py:1779-1780 | Six two-entry rows, dropped and flattened, are their six second entries. |
| Perimeter.TwoPointTargetIsCorners | dassh/reactor.py:1754-1755 | With a corners-only target, the result is exactly the six source corners, in side order. |
| Perimeter.FittedInterior | dassh/reactor.py:1765-1776 | In the fit branch, each side's entries before the corner are the fit of the dressed side at the target positions after the first. |
| Reactor.ScaleProfiles | dassh/reactor.py:575-576 | Every component profile is scaled, and no key is added or lost. |
| Reactor.ScaleAll | dassh/reactor.py:574-581 | Every assembly's record is scaled by the factor, position by position. |
| Reactor.Totals | dassh/reactor.py:580-581 | The per-assembly totals, in assembly order. |
| Reactor.Renorm | dassh/reactor.py:571-573 | The factor is 1 without a requested total. With a requested total, pcalc · renorm = ptot_user. It fails exactly on a request with pcalc = 0. |
| Reactor.PowerFactor | dassh/reactor.py:571-594 | The overall factor is pscalar without a request. With a request, pcalc · factor = ptot_user · pscalar. It fails exactly when the normalisation fails. |
| Reactor.ScaleAllOne | dassh/reactor.py:583-592 | Scaling by 1 changes nothing, which is why skipping a unit scalar is sound. |
| Reactor.ScaleProfilesTwice | dassh/reactor.py:575-590 | Scaling the profile dictionary twice is scaling by the product. |
| Reactor.ScaleAllTwice | dassh/reactor.py:571-592 | Scaling by renorm and then by pscalar is one scaling by their product. |
| Reactor.ScaledCoreTotal | dassh/reactor.py:594 | The scaled totals add up to the old sum times the factor. |
| Reactor.NormalisedCorePower | dassh/reactor.py:561-594 | When pcalc is the sum of the assembly totals, the scaled totals add up to the reported power pcalc · renorm · pscalar. With a requested total, that power equals ptot_user · pscalar. |
| Reactor.ScaleProfileDict | dassh/reactor.py:575-576 | The key loop scales each profile in the dictionary. |
| Reactor.ScalePass | dassh/reactor.py:574-581 | One pass over the array leaves every entry scaled by the factor. |
| Reactor.SetupScaleAsmPower | dassh/reactor.py:543-594 | Every profile, average profile and total is multiplied by renorm · pscalar, and the result is pcalc · renorm · pscalar. On failure nothing is scaled. With no request and a unit scalar, the array is unchanged. |
| Reactor.Filled | dassh/reactor.py:1092-1093 | The array after `*= 0.0; += T_in` has its old length, and every entry is T_in. |
| Reactor.ResetAll | dassh/reactor.py:1094-1099 | Every assembly is reset, position by position. |
| Reactor.ResetCharacterised | dassh/reactor.py:1090-1099 | Reset keeps every array's shape and sets every entry to T_in, and it is the only such state (so reset is idempotent). |
| Reactor.ResetRegionTemps | dassh/reactor.py:1096-1099 | The key loop resets every temperature array of one region. |
| Reactor.ResetAssemblyTemps | dassh/reactor.py:1095-1099 | The region loop resets every region of one assembly. |
| Reactor.DumpDecision | dassh/reactor.py:1377-1398 | With no dump requested, it returns False and leaves the accumulator as it was. Otherwise the step is added, and: with no interval it returns True; once the rounded accumulator reaches the interval it returns True and resets the accumulator to 0; at a boundary plane it returns True without resetting; otherwise it returns False. A reset accumulator stays below the interval. |
| Reactor.Round9 | dassh/reactor.py:1389 | `np.around(dz, 9)` for a length in picometres: rounding to the nanometre, halves to even. DumpDecision states the reset rule in its terms. |
| Reactor.DumpFlags | dassh/reactor.py:1226-1231 | One dump decision per plane after the inlet. |
| Reactor.DumpFlagsIndex | dassh/reactor.py:1226-1231 | Entry k - 1 of the decisions is the decision at plane k. |
| Reactor.DumpAcc | dassh/reactor.py:1380-1390 | The accumulator before plane k of a sweep, by repeated dump decisions from its start value. DumpAccumulatesDistance characterises it. |
| Reactor.DumpsAt | dassh/reactor.py:1377-1398 | Whether plane k of a sweep is dumped. DumpFlagsIndex and SweepDumpsEveryBoundary characterise it. |
| Reactor.NoDumpRequested | dassh/reactor.py:1380 | With no dump requested, no plane is dumped and the accumulator never moves. |
| Reactor.DumpAccumulatesDistance | dassh/reactor.py:1380-1390 | Starting from 0, the accumulator is the distance travelled since the inlet or since a dumped plane. |
| Reactor.SweepDumpsEveryBoundary | dassh/reactor.py:1392-1394 | On a planned mesh, a sweep with dumping requested dumps a mesh plane at every region boundary above the inlet. |
| Reactor.UseConvApprox | dassh/reactor.py:740-747 | The approximation applies only when the option is on and dz is below the cutoff. It then always applies without rods. With rods, it applies exactly when the limiting subchannel code starts with 2, 3, 6 or 7. An empty code there fails. |
| Reactor.LowFlowOnlyRaises | dassh/reactor.py:758-759 | Setting the flags raises every region's flag and changes nothing else; setting again is a no-op. |
| Reactor.LowFlow | dassh/reactor.py:758-759 | The assembly with every region's low-flow flag set. LowFlowOnlyRaises characterises it. |
| Reactor.AsmMeshReq | dassh/reactor.py:730-765 | The recorded step and code are the estimate for the assembly as left. The flags are raised exactly when the decision chooses the approximation, and the assembly is otherwise untouched. So they are raised only when the option is on and the first estimate is below the cutoff, and always then for an assembly without rods. It fails exactly when the decision fails. |
| Reactor.SetLowFlow | dassh/reactor.py:758-759 | The loop raises the low-flow flag of every region. |
| Reactor.RodBundleBounds | dassh/reactor.py:1529-1551 | For the low-fidelity model, a zero-length bundle at the top of the fine mesh. Otherwise the rods region converted from metres to centimetres. It fails exactly on an empty mesh or a missing rods region. |
| Reactor.RemappedDucts | dassh/reactor.py:1290-1295 | One remapped duct profile per assembly. |
| Reactor.DuctTempsInOrder | dassh/reactor.py:1289-1296 | The gap input exists exactly when every duct profile remaps, and entry a is assembly a's remapped profile. |
| Reactor.DuctTemps | dassh/reactor.py:1289-1296 | The remapped duct temperatures handed to the gap, or failure when one cannot be remapped. DuctTempsInOrder and GapSeesDuctCorners characterise it. |
| Reactor.GapSeesDuctCorners | dassh/reactor.py:1290-1296 | The gap receives each well-formed duct profile with its six corner temperatures unchanged. |
| Reactor.AsmUpdates | dassh/reactor.py:1312-1313 | One assembly update per assembly. |
| Reactor.AsmUpdatesInOrder | dassh/reactor.py:1312-1313 | The assembly updates run in list order, with the same plane, step and dump flag. |
| Reactor.StepOrder | dassh/reactor.py:1285-1313 | The gap is updated at most once in a step, only with a gap model, and first. Then every assembly is updated once, in list order. |
| Reactor.StepEvents | dassh/reactor.py:1285-1313 | The calls of one axial step: the gap update when there is a gap model, then the assembly updates. StepOrder characterises it. |
| Reactor.SweepEvents | dassh/reactor.py:1226-1231 | The calls of the sweep: the steps of planes 1, 2 and so on, in order. TemperatureSweep and SweepPlanes establish it as the trace. |
| Reactor.ProgressEveryInterval | dassh/reactor.py:1233-1237 | With an interval L, progress is logged at planes L - c, 2L - c, and so on. The counter stays below L and counts the planes since the last message. |
| Reactor.ProgressDisabled | dassh/reactor.py:1233 | Without progress logging, nothing is logged and the counter stays put. |
| Reactor.ProgressCount | dassh/reactor.py:1233-1237 | The progress counter at plane k, by repeated counting from its start value. ProgressEveryInterval and ProgressDisabled characterise it. |
| Reactor.LogsAt | dassh/reactor.py:1233-1237 | Whether progress is reported at plane k. ProgressEveryInterval and ProgressDisabled characterise it. |
| Reactor.Reports | dassh/reactor.py:1234-1236 | With logging on, counting one more plane reaches the interval. CountPlane characterises it. |
| Reactor.Tick | dassh/reactor.py:1234-1236 | The counter after one more plane: unchanged with logging off, restarted at 0 on a report, otherwise one more. CountPlane characterises it. |
| Reactor.ProgressPlanes | dassh/reactor.py:1226-1237 | The planes at which the sweep reports progress, in order. ProgressEveryInterval and ProgressDisabled characterise it. |
| Reactor.Reactor.constructor | dassh/reactor.py:93-149 | The options as `_setup_options` stores them: logging is on exactly for a positive interval, and the default cutoff is 0.001 m. The mesh is the `_setup_zpts` march (dassh/reactor.py lines 1035-1043) from a positive step: it reaches the core length, and ends exactly at it when the core length is the largest boundary. The accumulators start at 0. |
| Reactor.Reactor.GapInput | dassh/reactor.py:1289-1296 | The remapped duct temperatures the gap update receives when there is a gap model. AxialStep states that the gap update carries it. |
| Reactor.Reactor.StepFails | dassh/reactor.py:1289-1296 | An axial step fails when the gap model needs a duct profile that cannot be remapped. AxialStep, SweepPlanes and TemperatureSweep state that nothing is called then. |
| Reactor.Reactor.Reset | dassh/reactor.py:1090-1099 | The gap temperatures become T_in, and the assemblies become their reset. |
| Reactor.Reactor.SetupAsmAxialMeshReq | dassh/reactor.py:727-765 | Assemblies are processed in order, each as AsmMeshReq describes, until one fails. The assemblies not reached are untouched. |
| Reactor.Reactor.DataSetup | dassh/reactor.py:1101-1115 | A requested dump restarts the accumulator at 0; otherwise it is untouched. |
| Reactor.Reactor.DetermineDump | dassh/reactor.py:1377-1398 | The returned flag and the new accumulator are the dump decision for the old accumulator. |
| Reactor.Reactor.CalculateGapTemperatures | dassh/reactor.py:1296 | The gap solver is called once with the step and the remapped duct temperatures. |
| Reactor.Reactor.CalculateAsmTemperatures | dassh/reactor.py:1400-1414 | The assembly solver is called once with the assembly, plane, step and dump flag. |
| Reactor.Reactor.PrintLogMsg | dassh/reactor.py:1252-1268 | The plane is reported, and the counter restarts at 0. |
| Reactor.Reactor.CountPlane | dassh/reactor.py:1233-1237 | With logging on, the plane is counted, and it is reported once the interval is reached. |
| Reactor.Reactor.AxialStep | dassh/reactor.py:1270-1316 | The dump is decided first. Then the gap is updated from the remapped duct temperatures when there is a gap model. Then every assembly is updated in order. It fails, having called nothing, when a duct profile cannot be remapped. |
| Reactor.Reactor.SweepPlane | dassh/reactor.py:1226-1237 | One loop pass advances the dump accumulator, progress counter, log and trace exactly as the sweep specification does at that plane. |
| Reactor.Reactor.SweepPlanes | dassh/reactor.py:1226-1237 | The sweep loop steps through every plane after the inlet. It returns each plane's dump decision and leaves the accumulator, counter, progress log and call trace as the per-plane specification functions give them. The counter stays below the interval. |
| Reactor.Reactor.TemperatureSweep | dassh/reactor.py:1200-1250 | A requested dump restarts the accumulator. dumps[k-1] is the decision at plane k, and the trace is the per-plane steps in order. |
| Hotspot.CheckHeaderFromFirst | dassh/hotspot.py:326-331 | Resumed at column i, the verdict is decided by the first differing column at or after i. |
| Hotspot.CheckHeaderFrom | dassh/hotspot.py:326-332 | The `_check_header` loop resumed at column i. CheckHeaderFromFirst characterises it. |
| Hotspot.CheckHeader | dassh/hotspot.py:324-332 | `_check_header`: no message, a message naming the first differing column, or the IndexError of an over-long header. CheckHeaderSound characterises it. |
| Hotspot.CheckHeaderSound | dassh/hotspot.py:324-332 | The header is accepted exactly when it is a prefix of the expected header. Otherwise the message names the first differing column, 1-based, with the expected and the found name. It raises exactly when the header is longer than expected but matches every expected column. |
| Hotspot.FindFrom | dassh/hotspot.py:338 | `str.find` from i gives the lowest matching index at or after i, or -1 exactly when there is none. |
| Hotspot.Find | dassh/hotspot.py:338 | `str.find` gives -1 exactly when the pattern does not occur. |
| Hotspot.Tag | dassh/hotspot.py:338 | The tag of n is n stars followed by a comma. |
| Hotspot.TagShrinks | dassh/hotspot.py:337-345 | If the tag of n + 1 occurs, so does the tag of n. |
| Hotspot.TagAbsentAbove | dassh/hotspot.py:337-345 | Once a tag is absent, every longer tag is absent. |
| Hotspot.TagPresentBelow | dassh/hotspot.py:337-345 | Once a tag is present, every shorter tag is present. |
| Hotspot.CountExpr | dassh/hotspot.py:335-347 | It returns the largest n such that n stars and a comma occur, and 0 when "*," does not occur. The value is at most 100. It raises exactly when 101 stars and a comma occur. |
| Hotspot.PySlice | dassh/hotspot.py:119 | Python's clamping slice: its length and its entries. |
| Hotspot.Diffs | dassh/hotspot.py:122 | One difference fewer than entries; difference k is entry k + 1 minus entry k. |
| Hotspot.DiffsSum | dassh/hotspot.py:122 | Consecutive differences telescope to the last entry minus the first. |
| Hotspot.DiffTable | dassh/hotspot.py:121-122 | The table exists exactly when there is a row and all rows have the same length; row i is the differences of row i. |
| Hotspot.PeakRows | dassh/hotspot.py:114-120 | One collected row per assembly of the type. |
| Hotspot.CladRow | dassh/hotspot.py:118-119 | `[T_in] + clad_mw[2][3:6]` of one assembly. CladRowRises and CladDtRows characterise it. |
| Hotspot.FuelRow | dassh/hotspot.py:132-133 | Corrected definition (see ## Findings): `[T_in] + fuel_cl[2][3:]` without the id. FuelRowRises and FuelDtRows characterise it. |
| Hotspot.TypeIds | dassh/hotspot.py:72 | The ids of the first k assemblies of a type, in assembly order. TypeIdsFrom, TypeIdsComplete and PeakRowsAt characterise it. |
| Hotspot.IdsOf | dassh/hotspot.py:72 | `[a.id for a in r_obj.assemblies if a.name == asm_name]`. CladDt, FuelDt and TypePeaks give one row or peak per entry. |
| Hotspot.CladDt | dassh/hotspot.py:112-123 | One row of rises per assembly of the type. |
| Hotspot.MergeClad | dassh/hotspot.py:138-139 | Merging the two clad columns leaves five columns. |
| Hotspot.MergeCladSum | dassh/hotspot.py:138-139 | The five kept columns add up to the first six differences. |
| Hotspot.MergeRows | dassh/hotspot.py:138-139 | The clad columns are merged in every row. |
| Hotspot.FuelDt | dassh/hotspot.py:126-140 | Corrected definition (see ## Findings): the table built from `[T_in] + fuel_cl[3:]` rows, with one row of merged rises per assembly of the type. It needs at least 9 fuel entries, where the as-written table exists from 8. |
| Hotspot.GetCladPeakDt | dassh/hotspot.py:112-123 | The collection loop returns the clad table of the type, failing as the assertion does. |
| Hotspot.GetFuelPeakDt | dassh/hotspot.py:126-140 | Corrected definition (see ## Findings): the collection loop returns the corrected fuel table of the type, failing as the assertion or numpy does. |
| Hotspot.MergeColumns | dassh/hotspot.py:138-139 | The column merge, row by row. |
| Hotspot.PeakRowsNoneStays | dassh/hotspot.py:117 | Once the pin-data assertion has failed, the collection stays failed. |
| Hotspot.PeakRowsAt | dassh/hotspot.py:114-120 | Row i belongs to the i-th assembly of the type, which has pin data. |
| Hotspot.CladDtRows | dassh/hotspot.py:112-123 | Row i of the clad table is the differences of the clad row of the assembly with the i-th id of the type. |
| Hotspot.CladRowRises | dassh/hotspot.py:118-122 | A clad row gives the three rises [t3 - T_in, t4 - t3, t5 - t4], which sum to t5 - T_in. |
| Hotspot.FuelMergedSum | dassh/hotspot.py:136-139 | The merged differences of a row sum to entry 6 minus entry 0. |
| Hotspot.FuelDtRows | dassh/hotspot.py:126-140 | Corrected definition (see ## Findings): row i of the fuel table is the merged differences of the corrected fuel row of the assembly with the i-th id of the type. |
| Hotspot.FuelRowRises | dassh/hotspot.py:133-139 | A fuel row (without the id) gives five rises summing to fuel_cl[8] - T_in. |
| Hotspot.FuelDtRowAsWritten | dassh/hotspot.py:132-139 | With the id kept in the row, the first column is T_in - id, and the row sums to fuel_cl[7] - id. |
| Hotspot.FuelRowAsWritten | dassh/hotspot.py:132-133 | `[a.id, T_in] + fuel_cl[2][3:]`, as the source builds it. FuelDtRowAsWritten and FuelDtAsWrittenShifted characterise it. |
| Hotspot.FuelDtAsWrittenShifted | dassh/hotspot.py:132-139 | A concrete assembly on which the as-written row differs from the intended one. |
| Hotspot.Range | dassh/hotspot.py:103 | The positions 0 .. n - 1, in order. |
| Hotspot.InsertPosition | dassh/hotspot.py:103 | Inserting a position keeps every entry a position of the keys. |
| Hotspot.InsertPositionAdds | dassh/hotspot.py:103 | Insertion adds exactly the one position (multiset). |
| Hotspot.InsertPositionSorted | dassh/hotspot.py:103 | Insertion keeps the ordering sorted by key. |
| Hotspot.ArgSortPrefix | dassh/hotspot.py:103 | The prefix ordering consists of positions of the keys. |
| Hotspot.ArgSortPrefixPermutation | dassh/hotspot.py:103 | The prefix ordering holds each of 0 .. n - 1 exactly once. |
| Hotspot.ArgSortPrefixSorted | dassh/hotspot.py:103 | The prefix ordering is sorted by key. |
| Hotspot.Gather | dassh/hotspot.py:104-105 | `[s[i] for i in order]`: entry p is s[order[p]]. |
| Hotspot.ArgSortSorts | dassh/hotspot.py:103 | `np.argsort` gives a permutation of the positions that puts the ids in non-decreasing order. |
| Hotspot.ArgSort | dassh/hotspot.py:103 | `np.argsort` of the ids, as a stable insertion sort. ArgSortSorts characterises it. |
| Hotspot.Zeros | dassh/hotspot.py:74 | `np.zeros(n)`: n zeros. |
| Hotspot.PeakOfRows | dassh/hotspot.py:83-86 | One peak temperature per row of rises, each from that row. |
| Hotspot.TypePeaks | dassh/hotspot.py:78-99 | One peak temperature per assembly of the type. |
| Hotspot.CollectedNames | dassh/hotspot.py:75-76 | One type name per collected id. |
| Common.ConcatAppend | dassh/hotspot.py:86 | Collecting one more vector appends it to the concatenation. |
| Hotspot.CollectedPeaksLength | dassh/hotspot.py:74-99 | The concatenated peak vectors have one entry per collected id. |
| Hotspot.CollectedPeaksNoneStays | dassh/hotspot.py:80 | Once one type has failed, the collection stays failed. |
| Hotspot.CollectedNoneStays | dassh/hotspot.py:80-91 | A failed clad or fuel collection fails the whole analysis. |
| Hotspot.TypeTemperatures | dassh/hotspot.py:78-99 | The clad and fuel peaks of one type, with zeros for an absent table. |
| Hotspot.CollectType | dassh/hotspot.py:66-99 | One pass of the type loop extends ids, names and peaks by that type's entries, skipping types that request nothing. |
| Hotspot.Truthy | dassh/hotspot.py:68 | Python truthiness of an optional table path: present and non-empty. Requested is stated through it. |
| Hotspot.Requested | dassh/hotspot.py:68 | `any((subfactors_clad, subfactors_fuel))`: a type asks for the analysis. CollectType, CollectedFrom and AnalysisCoversRequested characterise it. |
| Hotspot.CollectedIds | dassh/hotspot.py:66-76 | The ids collected from the first k types. CollectedFrom, CollectedComplete and CollectedNames characterise it. |
| Hotspot.CollectedPeaks | dassh/hotspot.py:66-99 | The per-type peak vectors collected from the first k types, failing once one type fails. CollectedPeaksLength, CollectedPeaksNoneStays and CollectedNoneStays characterise it. |
| Hotspot.Collect | dassh/hotspot.py:63-99 | The type loop collects the specified ids, names and peak vectors, or fails as the specification does. |
| Hotspot.Analyze | dassh/hotspot.py:53-109 | Corrected definition (see ## Findings): the type loop's collection, read in id order by concatenation instead of `np.vstack`. With no requested type it returns an empty analysis, where `np.vstack([])` raises. |
| Hotspot.AnalyzeSpec | dassh/hotspot.py:53-109 | Corrected definition (see ## Findings): the collected ids, names and peaks, all read in the order of ArgSort of the ids. AnalysisSorted, AnalysisEntriesRequested, AnalysisCoversRequested and AnalysisPermutesAlike characterise it. |
| Hotspot.TypeIdsFrom | dassh/hotspot.py:72 | Every collected id of a type belongs to an assembly of that type. |
| Hotspot.TypeIdsComplete | dassh/hotspot.py:72 | Every assembly of a type has its id collected. |
| Hotspot.CollectedFrom | dassh/hotspot.py:66-76 | Each collected id belongs to an assembly of a requested type, with that type's name beside it. |
| Hotspot.CollectedComplete | dassh/hotspot.py:66-76 | Every assembly of a requested type has its id collected. |
| Hotspot.AnalysisSorted | dassh/hotspot.py:103-108 | All four columns have one entry per assembly, and the ids ascend. |
| Hotspot.AnalysisEntriesRequested | dassh/hotspot.py:66-76 | Each listed entry is an assembly of a requested type, listed with that type's name. |
| Hotspot.AnalysisCoversRequested | dassh/hotspot.py:68-76 | Every assembly of a requested type is listed; only types requesting nothing are skipped. |
| Hotspot.AnalysisPermutesAlike | dassh/hotspot.py:103-108 | One permutation reorders ids, names, clad and fuel peaks alike. |
| Hotspot.StackAsWritten | dassh/hotspot.py:106-108 | Stacking the per-type vectors and indexing by the per-assembly order works only for an order within the number of types. |
| Hotspot.StackAsWrittenFails | dassh/hotspot.py:103-108 | For one type with two assemblies, the as-written stacking fails, while the concatenation lists both peaks in id order. |
| Hotspot.StackAsWrittenFailsForSharedTypes | dassh/hotspot.py:103-108 | When T types each have n >= 2 assemblies, the as-written stacking always fails: the order names row nT - 1, past the T rows. |

## Left out

- The Legendre least-squares fit (`legfit`, `lstsq`, `legval`) is the function parameter `fit`.
  Its numerics and the cached `lstsq` parameters are not modelled.
- Floating-point rounding, NaN and infinity are not modelled. Temperatures and powers are exact
  reals; lengths are integer picometres.
  - `*= 0.0` on a NaN entry in `reset` is not modelled.
  - Reactor.Renorm: division by a zero pcalc is modelled as failure. numpy floats would give
    infinity instead of raising.
- Multiprocessing (`axial_step_parallel`, the worker pool) is left out: it is concurrency.
- File I/O is left out. That covers the dump files, pickling, summaries, `_data_open`/`_data_close`
  and `asm.write`. The dump decision is modelled; the writing is not.
- Log messages, their formatting and the elapsed time in `_print_log_msg` are left out: I/O and
  clock.
- Reactor.Reactor.CalculateAsmTemperatures: the assembly solver's update of the coolant and duct
  temperatures is not modelled; the call only records itself in the trace. The duct profiles the
  gap receives at plane i therefore stay those the sweep started with, where the source passes
  the ones the solver produced at plane i - 1.
- Reactor.Reactor.CalculateGapTemperatures: the gap solver's update of the gap temperatures is not
  modelled either; the call only records itself in the trace.
- The collaborators are left out because they live in modules outside this model:
  - `calculate_min_dz` is a function parameter;
  - `core.calculate_gap_temperatures` and `asm.calculate` are recorded as calls;
  - `check_region_update` and the gap-side `approximate_temps` inside `_calculate_asm_temperatures`
    are not modelled.
- The power binaries and power object construction (`calc_power_*`, `import_power_*`,
  `_setup_power`) are left out: subprocesses and files. Each assembly's power is taken as given.
- `calculate_temps`, `_read_hcf_table`, `_evaluate_hcf_expr`, `_eval_expr`, `_check_valid_expr` and
  `_check_float` are left out: Python `eval`, file reading and float parsing. The peak
  computation is the function parameter `PeakModel`.
- Hotspot.Analyze: the model applies the peak model to each assembly's row of rises. It does not
  model:
  - the `dT, a_id = ...` unpacking of a two-dimensional table, which succeeds only for exactly
    two rows;
  - the `IN_sigma`/`OUT_sigma` keyword arguments, which `calculate_temps` does not accept.
- Hotspot.ArgSort: it is a stable argsort. `np.argsort` may order equal ids differently. Only
  sortedness and permutation are claimed.
- AxialMesh.MeshPoints: requires a positive step. With a step of 0 or less the source loop never
  ends (see ## Findings), which a terminating method cannot express; NonPositiveStepStalls states
  the stall instead. `Reactor.Reactor.constructor` has the same requirement.
- Hotspot.FuelDt: it is the corrected table (see the Findings). The as-written table differs in
  its columns, and it also exists for 8 fuel entries, where the corrected one needs 9.
  `Hotspot.GetFuelPeakDt` and `Hotspot.FuelDtRows` are about the corrected table too.
- Hotspot.AnalyzeSpec: with no requested type it returns an empty analysis, while the source's
  `np.vstack([])` raises ValueError. It concatenates, so ragged per-type vectors, which also make
  `np.vstack` raise, are not an error in it.
- AxialMesh.OverallReqDz: a user mesh size and the dump interval are taken as already on the
  picometre grid (at most 12 decimals).
- Perimeter.Sides: samples past 6 · (|y| / 6) belong to no side. The reshape that would fail on
  them is modelled by the `|y| % 6 == 0` condition of ApproximateTemps.
- Truthiness and `is not None` are kept apart: a type whose table path is an empty string still
  runs its table. Any string stands for a path.
- Logging of DIF3D ids and the verbose step summary are not modelled: they are messages only.
- Assembly and core construction is left out: it is wrappers over other modules.
  `Reactor.Reactor.constructor` takes the options it needs as parameters.

## Findings

| source | as written | input that shows it | evidently intended | confidence | as-written member | corrected member |
|---|---|---|---|---|---|---|
| dassh/hotspot.py:132-139 | The fuel row is `[a.id, T_in] + fuel_cl[3:]`, so the differences start with T_in - id. The kept columns are shifted by one, and the fuel rise is dropped. | Id 1, T_in 0, fuel_cl = [0,0,0,1,2,3,4,5,6]: the first column is -1 and the row sums to 4. | The row `[T_in] + fuel_cl[3:]`: five rises (coolant, film, clad, gap, fuel) summing to the centreline rise, 6 here. | high; not executed | Hotspot.FuelDtAsWrittenShifted | Hotspot.FuelRowRises |
| dassh/hotspot.py:103-108 | `np.vstack` turns the per-type vectors into one row per type, and raises on no type or on vectors of different lengths. Rows are then selected by the per-assembly argsort, which names rows up to nT - 1 for T types of n assemblies each. So any type with two or more assemblies gives an IndexError. | One type with ids 7 and 3: order [1, 0] selects row 1 of a one-row matrix. | Concatenate the per-type vectors and read them in id order, giving [20, 10] for peaks [10, 20]. | high; not executed | Hotspot.StackAsWrittenFails | Hotspot.AnalysisPermutesAlike |
| dassh/reactor.py:1001-1041 | The required step is floored to the micrometre, and a user size is adopted whenever it is no larger. The step can therefore be 0 or negative, and `_setup_zpts` then repeats a step that never advances, so its loop never ends. | One assembly requiring 5e-7 m and no user size: the step is 0, and z stays at 0. | Refuse a step of 0 or less, and march only from a positive step, which then reaches the core length. | medium; not executed | AxialMesh.NonPositiveStepStalls | AxialMesh.PlanMesh |
