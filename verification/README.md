# Discrete-time loop extrusion: lattice automaton

This project models the per-step transition rules of the discrete-time loop-extrusion
simulator. Loop-extruding factors (LEFs) bind to a 1-D lattice of `L` sites. Each
bound LEF has a left and a right anchor. Each step, the anchors move outward into
free sites, stall at CTCF-like barriers, and unbind again. Three pieces are modelled:

- **Multistate `SymmetricExtruder`** (module `SymmetricExtruder`). This is a
  self-contained engine: constructor, the sequential `lef_step` loop, `lef_birth`,
  `lef_death`, `update_LEF_arrays`, `update_states`, `step` and `steps`.
- **`DynamicBoundary`** (module `DynamicBoundary`). Left- and right-facing barriers
  follow a per-site birth/death process. The stall arrays always agree with the
  barrier states, and LEF anchors on a barrier that dies are released.
- **`BaseExtruder`** (module `BaseExtruder`). These are the vectorised `birth`,
  `death`, `unload` and `update_states` of the newer engine, plus the stage order of
  its `step`.

Module `Lattice` holds what the engines share:
- the LEF container `Extruder`;
- Python negative indexing (`Wrap`, `PyAt`) and `numpy.flatnonzero`;
- the sample predicate for `numpy.random.choice(..., replace=False)`;
- the birth and death selection rules.

Randomness is never drawn. Every `numpy.random.random()` value is an explicit `real`
input, and the result of `choice` is an input sequence of distinct free sites. With
that, every rule is a deterministic function of integer positions, boolean occupancy,
stall flags and state ids. When numpy would raise, the model returns `Err`:
- `SampleLargerThanPopulation` when fewer free sites than LEFs exist;
- `IndexOutOfRange` when a newborn sits on the last site, so that the stagger check
  reads site `L`;
- `EmptyLattice` when the constructor marks site 0 of an empty lattice;
- `MissingArgument` when a call leaves a required parameter without a value
  (see "## Findings").

The main results:
- **Reachable-state invariant.** `SymmetricExtruder.Inv` holds initially and is kept
  by every `Step` (`Init`, `Step`, `Steps`). Sites 0 and `L-1` stay occupied. Every
  LEF is either unbound, at `-1` with no stall flag, or bound with `1 <= left <=
  right <= L-2`.
- **Stepping rule.** `lef_step` raises stall flags exactly from the draws and never
  clears them. Anchors move by one site outward at most, never while stalled, and
  only into a site that was free when checked. Moves go onto free sites only
  (`AdvanceLefRule`, `LefStepRules`, `LefStepContained`). The imperative method
  `LefStep` computes the same pass.
- **Births and deaths are disjoint.** Both selections read the pre-step states.
  Deaths are judged on the pre-birth anchors. The dead are cleared and every other
  LEF is untouched (`UpdateStatesRule` in both engines).
- **`steps` is one `step` per input.** `StepsAppend` shows that running `a + b` is
  running `a`, then `b`.
- **Barriers.** Barrier stall flags keep agreeing with barrier states
  (`DynamicBoundary.StepKeepsConsistent`). Without turnover the barrier is static
  (`StaticWithoutTurnover`).
- **Two quirks, shown by example:**
  - Moving an anchor can leave the LEF's other anchor on a site marked free
    (`AnchorSiteMayBeFree`).
  - `BaseExtruder` newborns can stack, because its stagger check uses the pre-birth
    occupancy (`NewbornsMayStack`).
  - By contrast, multistate newborns never share a site with each other (`NewbornsApart`); one can still land on another LEF's anchor on a site marked free (`NewbornMayMeetAnchor`).

Behaviour of the code worth knowing:
- **Sample size.** Every LEF is offered a site, bound or not, and any free site can
  be offered, whatever its birth probability.
- **Too few free sites.** Fewer free sites than LEFs raises an error; there is no
  partial assignment.
- **Birth and death order.** Both engines select births before deaths within a step.
- **Occupancy.** Occupancy in the multistate engine is not always the set of bound
  anchor sites (`AnchorSiteMayBeFree`).

## Model

| member | source | states |
|---|---|---|
| SymmetricExtruder.Init | multistate_extrusion/engines/SymmetricExtruder.py:6-34 | fails exactly on an empty lattice; otherwise all LEFs are unbound at `-1` with no stall flag, exactly sites 0 and `L-1` are occupied, and the invariant holds |
| SymmetricExtruder.AdvanceLef | multistate_extrusion/engines/SymmetricExtruder.py:39-69 | one loop iteration changes nothing of any other LEF and keeps states and array shapes |
| SymmetricExtruder.AdvanceLefRule | multistate_extrusion/engines/SymmetricExtruder.py:41-69 | a stall flag is set exactly when its draw is below the barrier probability at the anchor's site and is never cleared; left moves by -1 or 0, right by +1 or 0; a move happens exactly when the anchor is unstalled (including stalls raised this step), the target was free when checked and the draw beats the pause probability; a move occupies the target and frees the old site; only the anchors' old sites are ever freed |
| SymmetricExtruder.AnchorSiteMayBeFree | multistate_extrusion/engines/SymmetricExtruder.py:55-59 | on a concrete invariant state, a left move frees the site the right anchor still sits on |
| SymmetricExtruder.LefStepUpTo | multistate_extrusion/engines/SymmetricExtruder.py:39-40 | the pass changes positions and stall flags only of LEFs in the active state, and no state |
| SymmetricExtruder.LefStepRules | multistate_extrusion/engines/SymmetricExtruder.py:41-69 | after the pass, every active LEF's stall flags grew exactly by its draws, each anchor moved at most one site outward, and never while stalled or without beating the pause |
| SymmetricExtruder.LefStepContained | multistate_extrusion/engines/SymmetricExtruder.py:49-69 | the pass keeps both boundary sites occupied and every active anchor in `1..L-2` |
| SymmetricExtruder.AdvanceInPlace | multistate_extrusion/engines/SymmetricExtruder.py:41-69 | the in-place updates of one iteration compute the iteration rule |
| SymmetricExtruder.LefStep | multistate_extrusion/engines/SymmetricExtruder.py:37-69 | the loop over all LEFs in index order computes the sequential pass, each LEF seeing the moves of earlier ones |
| Lattice.BirthIds | multistate_extrusion/engines/SymmetricExtruder.py:77-78 | the born LEFs are exactly the unbound ones whose draw is below the birth probability of their offered site, in increasing order |
| Lattice.DeathIds | multistate_extrusion/engines/SymmetricExtruder.py:97-108 | `lef_death` (and the identical `death` of discrete_time_extrusion/extruders/BaseExtruder.py:55-65): read-only; the dying LEFs are exactly the bound ones whose draw is below the larger anchor death rate, stalled rate for a stalled anchor, read with Python indexing |
| Lattice.DeathIdsSeeBound | multistate_extrusion/engines/SymmetricExtruder.py:99-106 | the death selection depends only on the states, anchors and stall flags of bound LEFs |
| Lattice.BirthSelection | discrete_time_extrusion/extruders/BaseExtruder.py:39-40 | the birth selection is increasing, has the membership above, and every selected LEF is offered a site below the last |
| SymmetricExtruder.PlaceBorn | multistate_extrusion/engines/SymmetricExtruder.py:82-88 | each born LEF gets both anchors on its offered site, the right one on the next site when it staggers; other LEFs keep their anchors |
| SymmetricExtruder.PlaceBornInRange | multistate_extrusion/engines/SymmetricExtruder.py:82-88 | after placement every anchor is still a valid site index, newborn anchors being their offered site or the next one |
| SymmetricExtruder.MarkBornSites | multistate_extrusion/engines/SymmetricExtruder.py:81-92 | after birth a site is occupied exactly when it was before or it is an anchor site of a newborn |
| SymmetricExtruder.LefBirth | multistate_extrusion/engines/SymmetricExtruder.py:72-94 | fails exactly when fewer than `M` sites are free or a newborn sits on the last site; otherwise `choice` is a sample of free sites, states and stall flags are unchanged, and positions and occupancy are the placement and marking of the selection |
| SymmetricExtruder.NewbornsOnFreeSites | multistate_extrusion/engines/SymmetricExtruder.py:74-88 | every newborn anchor lies on a site that was free before the birth, left not past right |
| SymmetricExtruder.NewbornsApart | multistate_extrusion/engines/SymmetricExtruder.py:74-92 | newborn anchor sites end up occupied and no two newborns share a site, since the stagger check sees the newly bound sites |
| SymmetricExtruder.BirthLeavesOthers | multistate_extrusion/engines/SymmetricExtruder.py:78-88 | birth changes no state or stall flag and moves no LEF outside the unbound state |
| SymmetricExtruder.UpdateLefArrays | multistate_extrusion/engines/SymmetricExtruder.py:111-116 | the given LEFs lose their stall flags and are parked at `-1`, a site stays occupied exactly when no given LEF has an anchor there, everything else is unchanged |
| SymmetricExtruder.Settle | multistate_extrusion/engines/SymmetricExtruder.py:124-127 | dead LEFs end unbound (the later assignment wins), born ones bound, the dead are cleared and their sites freed |
| SymmetricExtruder.UpdateStates | multistate_extrusion/engines/SymmetricExtruder.py:119-127 | fails exactly when birth fails; births are the unbound LEFs whose draw is below the site's birth probability; each LEF ends unbound if dead, bound if born, else keeps its state |
| SymmetricExtruder.DeathsSeePreBirth | multistate_extrusion/engines/SymmetricExtruder.py:121-122 | with distinct ids the death selection after birth is the death selection on the pre-step state |
| SymmetricExtruder.BirthsMissDeaths | multistate_extrusion/engines/SymmetricExtruder.py:121-125 | with distinct ids no LEF is both born and dead in one step |
| SymmetricExtruder.UpdateStatesRule | multistate_extrusion/engines/SymmetricExtruder.py:119-127 | deaths are the bound LEFs selected on the pre-step state, disjoint from births, parked at `-1` with no stall; every other LEF keeps anchors and flags |
| SymmetricExtruder.NewbornsInterior | multistate_extrusion/engines/SymmetricExtruder.py:74-88 | with occupied boundary sites every newborn lies in `1..L-2` |
| SymmetricExtruder.BirthKeepsWalls | multistate_extrusion/engines/SymmetricExtruder.py:80-92 | birth only marks sites occupied, so both boundary sites stay occupied |
| SymmetricExtruder.BirthNewbornsInterior | multistate_extrusion/engines/SymmetricExtruder.py:74-88 | `NewbornsInterior` applied to `lef_birth`: with occupied boundary sites every newborn of the birth lies in `1..L-2` |
| SymmetricExtruder.NewbornMayMeetAnchor | multistate_extrusion/engines/SymmetricExtruder.py:74-92 | a reachable state where the one newborn lands on site 2, marked free yet still holding LEF 0's right anchor: birth excludes only sites marked occupied |
| SymmetricExtruder.SettleKeepsInv | multistate_extrusion/engines/SymmetricExtruder.py:111-127 | clearing interior dead LEFs never frees a boundary site, so the invariant holds afterwards |
| SymmetricExtruder.SettleAfterBirthKeepsInv | multistate_extrusion/engines/SymmetricExtruder.py:111-127 | when newborns are interior, everyone else kept their anchors and the dead were bound, clearing the dead keeps the invariant |
| SymmetricExtruder.BirthSettleKeepsInv | multistate_extrusion/engines/SymmetricExtruder.py:119-127 | birth, the death selection on its result and the clearing of the dead together keep the invariant |
| SymmetricExtruder.UpdateStatesKeepsInv | multistate_extrusion/engines/SymmetricExtruder.py:119-127 | with the default ids `update_states` keeps the invariant |
| SymmetricExtruder.LefStepKeepsInv | multistate_extrusion/engines/SymmetricExtruder.py:37-69 | with the bound state active, a pass is well defined on any invariant state and keeps the invariant |
| SymmetricExtruder.WalledBirthFails | multistate_extrusion/engines/SymmetricExtruder.py:74-84 | with the last site occupied a birth fails only for lack of free sites |
| SymmetricExtruder.BarrierKeepsInv | discrete_time_extrusion/boundaries/DynamicBoundary.py:77-81 | the barrier stage only clears LEF stall flags, so the engine invariant and barrier consistency survive it |
| SymmetricExtruder.Step | multistate_extrusion/engines/SymmetricExtruder.py:130-135 | barrier step, then `update_states`, then `lef_step` with the default ids: fails exactly when the birth sample cannot be drawn, otherwise the run invariant holds again with the same parameters and LEF count |
| SymmetricExtruder.Steps | multistate_extrusion/engines/SymmetricExtruder.py:138-141 | the run invariant, parameters and LEF count survive any number of steps |
| SymmetricExtruder.StepsAppend | multistate_extrusion/engines/SymmetricExtruder.py:138-141 | running inputs `a + b` is running `a` and then `b` from where it stopped, stopping at the first failure |
| DynamicBoundary.FromStates | discrete_time_extrusion/boundaries/DynamicBoundary.py:34-35 | the stall arrays derived from the barrier states make every stall flag equal "that barrier is bound" |
| DynamicBoundary.Birth | discrete_time_extrusion/boundaries/DynamicBoundary.py:38-49 | selects, per direction, exactly the unbound barriers whose draw is below the birth probability, raises their stall flags, and changes nothing else |
| DynamicBoundary.Death | discrete_time_extrusion/boundaries/DynamicBoundary.py:52-63 | selects, per direction, exactly the bound barriers whose draw is below the death probability, lowers their stall flags, and changes nothing else |
| DynamicBoundary.Step | discrete_time_extrusion/boundaries/DynamicBoundary.py:66-81 | born barriers become bound, dead ones unbound, others keep their state; with distinct ids no site is both born and dead; a LEF stall flag is cleared exactly when its anchor sits on a barrier of that direction that died, anchors at `-1` never match, and no flag is raised |
| DynamicBoundary.StepKeepsConsistent | discrete_time_extrusion/boundaries/DynamicBoundary.py:66-75 | with the default ids a step keeps every stall flag equal to "that barrier is bound" and never touches a site without a barrier |
| DynamicBoundary.StaticWithoutTurnover | discrete_time_extrusion/boundaries/DynamicBoundary.py:66-81 | with zero birth and death rates a step changes neither the barriers nor any LEF stall flag |
| BaseExtruder.Place | discrete_time_extrusion/extruders/BaseExtruder.py:43-50 | each born LEF gets both anchors on its offered site, the right one on the next site when its stagger draw is below one half and that site was free before the birth |
| BaseExtruder.PlaceInRange | discrete_time_extrusion/extruders/BaseExtruder.py:43-50 | after placement every anchor is still a valid site index |
| BaseExtruder.Birth | discrete_time_extrusion/extruders/BaseExtruder.py:34-52 | fails exactly when fewer than `M` sites are free or a newborn sits on the last site; otherwise occupancy, states and stall flags are unchanged and positions are the placement of the selection |
| BaseExtruder.BirthSelects | discrete_time_extrusion/extruders/BaseExtruder.py:36-40 | the born LEFs, in increasing order, are exactly the unbound ones whose draw is below the birth probability of their offered site |
| BaseExtruder.BirthKeepsOthers | discrete_time_extrusion/extruders/BaseExtruder.py:42-50 | birth keeps every anchor a valid site index and moves no LEF it did not select |
| BaseExtruder.BirthRule | discrete_time_extrusion/extruders/BaseExtruder.py:36-52 | each newborn sits on the free site it was offered, below the last one, its right anchor staggered exactly when its draw is below one half and the next site was free before the birth |
| BaseExtruder.BirthNewbornsInterior | discrete_time_extrusion/extruders/BaseExtruder.py:36-50 | with both boundary sites occupied, every newborn lies in `1..L-2` |
| BaseExtruder.PlaceRule | discrete_time_extrusion/extruders/BaseExtruder.py:43-50 | for any sample, placement puts the `k`-th selected LEF on its free offered site, staggered exactly when its draw is below one half and the next site was free |
| BaseExtruder.NewbornsMayStack | discrete_time_extrusion/extruders/BaseExtruder.py:46-50 | on a concrete lattice, one newborn staggers onto the site another newborn is born on |
| BaseExtruder.Unload | discrete_time_extrusion/extruders/BaseExtruder.py:68-71 | the given LEFs lose both stall flags and are parked at `-1`; occupancy, states and other LEFs are unchanged |
| BaseExtruder.Settle | discrete_time_extrusion/extruders/BaseExtruder.py:79-82 | dead LEFs end unbound, born ones bound, the dead are unloaded, occupancy is untouched |
| BaseExtruder.UpdateStates | discrete_time_extrusion/extruders/BaseExtruder.py:74-82 | fails exactly when birth fails; births are the unbound LEFs whose draw is below the site's birth probability; each LEF ends unbound if dead, bound if born, else keeps its state; occupancy is untouched |
| BaseExtruder.BirthLeavesOthers | discrete_time_extrusion/extruders/BaseExtruder.py:39-44 | birth moves no LEF outside the unbound state |
| BaseExtruder.DeathsSeePreBirth | discrete_time_extrusion/extruders/BaseExtruder.py:76-77 | with distinct ids the death selection after birth is the death selection on the pre-step state |
| BaseExtruder.UpdateStatesRule | discrete_time_extrusion/extruders/BaseExtruder.py:74-82 | deaths are the bound LEFs selected on the pre-step state, disjoint from births, unloaded; others keep anchors and flags; states that start in `{unbound, bound}` stay there |
| BaseExtruder.Step | discrete_time_extrusion/extruders/BaseExtruder.py:85-92 | the intended step: `update_states`, then `update_occupancies` on its result, then the parent step, then the stepping kernel given the unbound and the active id; a failing birth stops the step before any later stage |
| BaseExtruder.StepAsWritten | discrete_time_extrusion/extruders/BaseExtruder.py:85-92 | the step as written never completes: a failing birth raises its error, and otherwise the kernel call fails for a missing argument after the earlier stages ran |
| BaseExtruder.StepAsWrittenNeverSteps | discrete_time_extrusion/extruders/BaseExtruder.py:92 | exactly the steps the intended `Step` completes are the ones the written step abandons at the kernel call |

## Findings

| source | as written | input that shows it | evidently intended | confidence | as-written member | corrected member |
|---|---|---|---|---|---|---|
| discrete_time_extrusion/extruders/BaseExtruder.py:92 | `SteppingEngine(self, mode, active_state_id, **kwargs)` binds the active id to the kernel's `unbound_state_id` parameter (discrete_time_extrusion/extruders/EngineFactory.py:45) and gives no value for `active_state_id`, which cannot arrive through `**kwargs` because `step` names it; Python raises TypeError after lines 87-90 changed the state | any `step` whose `birth` raises nothing: at least `M` free sites and no newborn offered the last site | `SteppingEngine(self, mode, unbound_state_id, active_state_id, **kwargs)`: the unbound id feeds the diffusion pass, the active id the stepping kernel | high; not executed | BaseExtruder.StepAsWritten, BaseExtruder.StepAsWrittenNeverSteps | BaseExtruder.Step |

## Left out

- Draw consumption order. The draws of one step are grouped by purpose; the model does not follow the interleaved order in which numpy consumes them. `lef_step` reads its move draws only when an anchor may move. The model takes all four draws per LEF and ignores the unused ones.
- Statistics of randomness. Nothing here is about distributions, equilibrium barrier occupancy or device maths.
- `StaticBoundary` is not part of this model. Its `prob_left`/`prob_right` arrays enter `lef_step` as per-step inputs.
- `NullExtruder` is not part of this model. `update_occupancies`, the parent `step` and the stepping kernels are function parameters of `BaseExtruder.Step`.
- EngineFactory.py, Translocator.py and setup.py. These are backend dispatch, driver and configuration, and packaging.
- The random initialisation of `DynamicBoundary` (DynamicBoundary.py:19-32). Barrier states are an input; `FromStates` derives the stall arrays from them as lines 34-35 do.
- Partially mutated state after a numpy exception. The model returns `Err` and no state.
- GPU execution and parallelism.
- SymmetricExtruder.Init: requires the four per-site arrays to have equal length, the intended configuration. The Python code takes `L` from `birth_prob` alone and accepts any lengths whose read indices exist: under the invariant, length `L-1` suffices for the pause and death arrays, and longer arrays are accepted with the extra entries never read.
- SymmetricExtruder.Step: fixes the barrier engine to the `DynamicBoundary` model, while the engine accepts any barrier object (multistate_extrusion/engines/SymmetricExtruder.py:8, 24). A static barrier is covered only as the zero-rate case (`StaticWithoutTurnover`).
- `IndexOutOfRange` follows numpy. With cupy as the array backend (discrete_time_extrusion/extruders/BaseExtruder.py:3-11), an out-of-range integer-array index wraps instead of raising; that behaviour is not modelled.
- SymmetricExtruder.LefStep: requires every active LEF's left anchor to be at least 1 and its right anchor at most `L-2`. The Python code would wrap `occupied[-1]` or raise past the end; under the invariant neither can happen (`LefStepKeepsInv`).
- SymmetricExtruder.LefStepRules: at the level of the whole pass it states only the draw and stall parts of the move guard. The free-target part depends on occupancy in the middle of the pass and is stated per iteration by `AdvanceLefRule`.
- SymmetricExtruder.Steps: requires each input to fit the state that the earlier steps reach (`Runnable`). This includes the `choice` sample being drawn from that state's free sites.
- BaseExtruder.Step: the three later stages are opaque functions. Their effects, including whether they keep the states, are not modelled. `Step` is the intended call `SteppingEngine(self, mode, unbound_state_id, active_state_id)`; the call as written is `StepAsWritten` (see "## Findings").
