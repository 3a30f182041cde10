/**
 The vectorised birth, death and unload rules of the newer extruder engine.
 Unlike the multistate engine, these rules never touch the occupancy: it is
 recomputed afterwards by `update_occupancies`, which this model keeps
 abstract, together with the parent class's step and the stepping kernel.
 */
module BaseExtruder {
  import opened Lattice

  /** Whether the `k`-th born LEF staggers its right anchor: its stagger draw
      is below one half and the next site was free before the birth. */
  predicate Staggers(e: Extruder, choice: seq<int>, ids: seq<nat>, stagger: seq<real>, k: nat)
    requires PlaceReady(e, choice, ids, stagger) && k < |ids|
  {
    stagger[k] < 0.5 && !e.occupied[choice[ids[k]] + 1]
  }

  /** Anchor positions after `birth`: the `k`-th born LEF sits on its offered
      site, its right anchor one further when it staggers. */
  function Place(e: Extruder, choice: seq<int>, ids: seq<nat>, stagger: seq<real>)
    : (positions: seq<Pair<int>>)
    requires PlaceReady(e, choice, ids, stagger)
    ensures |positions| == |e.positions|
    ensures forall i: nat :: i < |e.positions| && i !in ids ==> positions[i] == e.positions[i]
    ensures forall k :: 0 <= k < |ids| ==>
      var c := choice[ids[k]];
      positions[ids[k]] == Pair(c, if Staggers(e, choice, ids, stagger, k) then c + 1 else c)
  {
    assert forall k :: 0 <= k < |ids| ==> IndexOf(ids, ids[k]) == k;
    seq(|e.positions|, i requires 0 <= i < |e.positions| =>
      if i in ids then
        var k := IndexOf(ids, i);
        var c := choice[i];
        Pair(c, if Staggers(e, choice, ids, stagger, k) then c + 1 else c)
      else e.positions[i])
  }

  /** Placement keeps every anchor a valid index: a newborn's sites are its
      offered site and the next one, both on the lattice. */
  lemma PlaceInRange(e: Extruder, choice: seq<int>, ids: seq<nat>, stagger: seq<real>)
    requires PlaceReady(e, choice, ids, stagger)
    ensures Shaped(e.(positions := Place(e, choice, ids, stagger)))
  {
    var n := |e.occupied|;
    var positions := Place(e, choice, ids, stagger);
    forall i | 0 <= i < |positions|
      ensures -n <= positions[i].left < n && -n <= positions[i].right < n
    {
      if i in ids {
        var k :| 0 <= k < |ids| && ids[k] == i;
        assert 0 <= choice[ids[k]] < n - 1;
      }
    }
  }

  /** `birth`: every LEF, bound or not, is offered one of `M` distinct free
      sites; an unbound LEF whose draw is below the birth probability of its
      site gets both anchors on that site, and its right anchor moves to the
      next site when its stagger draw is below one half and that site was
      free before the birth. Occupancy, states and stall flags are left as
      they were. Fails, as numpy does, when fewer than `M` sites are free or
      a newborn sits on the last site. */
  function Birth(e: Extruder, unbound: int, choice: seq<int>, draws: seq<real>, stagger: seq<real>)
    : (r: Result<Outcome>)
    requires BirthReady(e, choice, draws, stagger)
    ensures r.Err? <==> BirthFails(e, unbound, choice, draws)
    ensures r.Err? ==> r.error == BirthError(e)
    ensures r.Ok? ==>
      var x, ids := r.value.ext, r.value.ids;
      && IsSample(choice, e.occupied, |e.states|)
      && Shaped(x) && SameShape(e, x)
      && x.states == e.states && x.stalled == e.stalled && x.occupied == e.occupied
      && ids == BirthSelection(e, unbound, choice, draws, stagger)
      && x.positions == Place(e, choice, ids, stagger)
  {
    if |FreeSites(e.occupied)| < |e.states| then Err(SampleLargerThanPopulation)
    else if BornOnLastSite(e, unbound, choice, draws) then Err(IndexOutOfRange)
    else
      var ids := BirthSelection(e, unbound, choice, draws, stagger);
      var positions := Place(e, choice, ids, stagger);
      if |ids| == 0 then
        assert positions == e.positions;
        Ok(Outcome(e, ids))
      else
        PlaceInRange(e, choice, ids, stagger);
        Ok(Outcome(e.(positions := positions), ids))
  }

  /** Who `birth` selects: exactly the unbound LEFs whose draw is below the
      birth probability of the site they were offered. */
  lemma BirthSelects(e: Extruder, unbound: int, choice: seq<int>, draws: seq<real>, stagger: seq<real>)
    requires BirthReady(e, choice, draws, stagger)
    requires Birth(e, unbound, choice, draws, stagger).Ok?
    ensures var b := Birth(e, unbound, choice, draws, stagger).value;
      && Increasing(b.ids)
      && forall i: nat :: i in b.ids <==>
           i < |e.states| && e.states[i] == unbound && draws[i] < e.birthProb[choice[i]]
  {
    var b := Birth(e, unbound, choice, draws, stagger).value;
    assert b.ids == BirthSelection(e, unbound, choice, draws, stagger);
  }

  /** `birth` keeps every anchor a valid site index and moves no LEF it
      did not select. */
  lemma BirthKeepsOthers(e: Extruder, unbound: int, choice: seq<int>, draws: seq<real>, stagger: seq<real>)
    requires BirthReady(e, choice, draws, stagger)
    requires Birth(e, unbound, choice, draws, stagger).Ok?
    ensures var b := Birth(e, unbound, choice, draws, stagger).value;
      && Shaped(b.ext)
      && (forall i: nat :: i < |e.states| && i !in b.ids ==> b.ext.positions[i] == e.positions[i])
  {
    var b := Birth(e, unbound, choice, draws, stagger).value;
    assert b.ext.positions == Place(e, choice, b.ids, stagger);
  }

  /** Where `birth` puts the newborns: each on the free site it was offered,
      below the last one, its right anchor one further exactly when its
      stagger draw is below one half and that site was free before the
      birth. */
  lemma BirthRule(e: Extruder, unbound: int, choice: seq<int>, draws: seq<real>, stagger: seq<real>)
    requires BirthReady(e, choice, draws, stagger)
    requires Birth(e, unbound, choice, draws, stagger).Ok?
    ensures var b := Birth(e, unbound, choice, draws, stagger).value;
      forall k :: 0 <= k < |b.ids| ==>
            var c := choice[b.ids[k]];
            && 0 <= c < |e.occupied| - 1 && !e.occupied[c]
            && b.ext.positions[b.ids[k]] == Pair(c, if stagger[k] < 0.5 && !e.occupied[c + 1] then c + 1 else c)
  {
    var b := Birth(e, unbound, choice, draws, stagger).value;
    assert b.ids == BirthSelection(e, unbound, choice, draws, stagger);
    assert PlaceReady(e, choice, b.ids, stagger) && IsSample(choice, e.occupied, |e.states|);
    assert b.ext.positions == Place(e, choice, b.ids, stagger);
    PlaceRule(e, choice, b.ids, stagger);
  }

  /** With both boundary sites occupied, `birth` puts every newborn strictly
      inside the lattice: its site was free, so not a boundary site, and it
      staggers only onto a free site, so never onto the last one. */
  lemma BirthNewbornsInterior(e: Extruder, unbound: int, choice: seq<int>, draws: seq<real>, stagger: seq<real>)
    requires Walled(e.occupied)
    requires BirthReady(e, choice, draws, stagger)
    requires Birth(e, unbound, choice, draws, stagger).Ok?
    ensures var b := Birth(e, unbound, choice, draws, stagger).value;
      forall i :: 0 <= i < |e.states| && i in b.ids ==> Interior(b.ext.positions[i], |e.occupied|)
  {
    var b := Birth(e, unbound, choice, draws, stagger).value;
    assert PlaceReady(e, choice, b.ids, stagger) && IsSample(choice, e.occupied, |e.states|);
    assert b.ext.positions == Place(e, choice, b.ids, stagger);
    PlaceInterior(e, choice, b.ids, stagger);
    forall i | 0 <= i < |e.states| && i in b.ids
      ensures Interior(b.ext.positions[i], |e.occupied|)
    {
      var k :| 0 <= k < |b.ids| && b.ids[k] == i;
    }
  }

  /** Placement on a lattice with occupied boundary sites keeps every
      newborn in `1..L-2`. */
  lemma PlaceInterior(e: Extruder, choice: seq<int>, ids: seq<nat>, stagger: seq<real>)
    requires PlaceReady(e, choice, ids, stagger)
    requires IsSample(choice, e.occupied, |e.states|)
    requires Walled(e.occupied)
    ensures forall k :: 0 <= k < |ids| ==> Interior(Place(e, choice, ids, stagger)[ids[k]], |e.occupied|)
  {
    var n := |e.occupied|;
    var positions := Place(e, choice, ids, stagger);
    PlaceRule(e, choice, ids, stagger);
    forall k | 0 <= k < |ids|
      ensures Interior(positions[ids[k]], n)
    {
      var c := choice[ids[k]];
      assert 0 <= c < n - 1 && !e.occupied[c];
      assert c != 0;
      if stagger[k] < 0.5 && !e.occupied[c + 1] {
        assert positions[ids[k]] == Pair(c, c + 1);
        assert c + 1 != n - 1;
      } else {
        assert positions[ids[k]] == Pair(c, c);
      }
    }
  }

  /** The placement rule on its own: offered sites are free and below the
      last one, and a right anchor is staggered exactly when its draw is
      below one half and the next site was free before the birth. */
  lemma PlaceRule(e: Extruder, choice: seq<int>, ids: seq<nat>, stagger: seq<real>)
    requires PlaceReady(e, choice, ids, stagger)
    requires IsSample(choice, e.occupied, |e.states|)
    ensures forall k :: 0 <= k < |ids| ==>
      var c := choice[ids[k]];
      && 0 <= c < |e.occupied| - 1 && !e.occupied[c]
      && Place(e, choice, ids, stagger)[ids[k]] == Pair(c, if stagger[k] < 0.5 && !e.occupied[c + 1] then c + 1 else c)
  {
    var positions := Place(e, choice, ids, stagger);
    forall k | 0 <= k < |ids|
      ensures var c := choice[ids[k]];
        && 0 <= c < |e.occupied| - 1 && !e.occupied[c]
        && positions[ids[k]] == Pair(c, if stagger[k] < 0.5 && !e.occupied[c + 1] then c + 1 else c)
    {
      assert Staggers(e, choice, ids, stagger, k) == (stagger[k] < 0.5 && !e.occupied[choice[ids[k]] + 1]);
    }
  }

  /** `unload`: the given LEFs lose their stall flags and are parked at `-1`;
      the occupancy is not touched. */
  function Unload(e: Extruder, ids: seq<nat>): (r: Extruder)
    requires Shaped(e)
    requires forall k :: 0 <= k < |ids| ==> ids[k] < |e.states|
    ensures Shaped(r) && SameShape(e, r) && r.states == e.states && r.occupied == e.occupied
    ensures forall i: nat :: i < |e.states| ==>
      if i in ids then r.positions[i] == Pair(NoSite, NoSite) && r.stalled[i] == Pair(false, false)
      else r.positions[i] == e.positions[i] && r.stalled[i] == e.stalled[i]
  {
    assert |ids| > 0 ==> |e.occupied| >= 1 by {
      if |ids| > 0 { assert -|e.occupied| <= e.positions[ids[0]].left < |e.occupied|; }
    }
    e.(stalled := Assign(e.stalled, ids, Pair(false, false)),
       positions := Assign(e.positions, ids, Pair(NoSite, NoSite)))
  }

  /** The states `update_states` writes: born LEFs bound, dead ones unbound
      (the later assignment wins), then the dead are unloaded. */
  function Settle(x: Extruder, births: seq<nat>, deaths: seq<nat>, unbound: int, bound: int): (r: Extruder)
    requires Shaped(x)
    requires forall k :: 0 <= k < |deaths| ==> deaths[k] < |x.states|
    ensures Shaped(r) && SameShape(x, r) && r.occupied == x.occupied
    ensures forall i: nat :: i < |x.states| ==>
      r.states[i] == (if i in deaths then unbound else if i in births then bound else x.states[i])
    ensures forall i: nat :: i < |x.states| ==>
      if i in deaths then r.positions[i] == Pair(NoSite, NoSite) && r.stalled[i] == Pair(false, false)
      else r.positions[i] == x.positions[i] && r.stalled[i] == x.stalled[i]
  {
    Unload(x.(states := Assign(Assign(x.states, births, bound), deaths, unbound)), deaths)
  }

  /** `update_states`: births first, then deaths on the state the births
      left, then the new states, then `unload` of the dead. The occupancy is
      never touched. */
  function UpdateStates(e: Extruder, unbound: int, bound: int, choice: seq<int>,
                        birthDraws: seq<real>, stagger: seq<real>, deathDraws: seq<real>)
    : (r: Result<Update>)
    requires BirthReady(e, choice, birthDraws, stagger)
    requires |deathDraws| == |e.states|
    ensures r.Err? <==> BirthFails(e, unbound, choice, birthDraws)
    ensures r.Err? ==> r.error == BirthError(e)
    ensures r.Ok? ==>
      var x, births, deaths := r.value.ext, r.value.births, r.value.deaths;
      && Shaped(x) && SameShape(e, x) && x.occupied == e.occupied
      && (forall i: nat :: i in births <==>
            i < |e.states| && e.states[i] == unbound && birthDraws[i] < e.birthProb[choice[i]])
      && (forall i: nat :: i < |e.states| ==>
            x.states[i] == (if i in deaths then unbound else if i in births then bound else e.states[i]))
  {
    var born :- Birth(e, unbound, choice, birthDraws, stagger);
    BirthSelects(e, unbound, choice, birthDraws, stagger);
    BirthKeepsOthers(e, unbound, choice, birthDraws, stagger);
    var deaths := DeathIds(born.ext, bound, deathDraws);
    assert forall k :: 0 <= k < |deaths| ==> deaths[k] in deaths;
    Ok(Update(Settle(born.ext, born.ids, deaths, unbound, bound), born.ids, deaths))
  }

  /** `birth` touches only the positions of LEFs in the unbound state. */
  lemma BirthLeavesOthers(e: Extruder, unbound: int, choice: seq<int>, draws: seq<real>, stagger: seq<real>)
    requires BirthReady(e, choice, draws, stagger)
    requires Birth(e, unbound, choice, draws, stagger).Ok?
    ensures var b := Birth(e, unbound, choice, draws, stagger).value;
      forall i: nat :: i < |e.states| && e.states[i] != unbound ==>
        i !in b.ids && b.ext.positions[i] == e.positions[i]
  {
  }

  /** Births only move LEFs in the unbound state, so the death selection
      made after the births reads the pre-birth anchors of every bound LEF. */
  lemma DeathsSeePreBirth(e: Extruder, unbound: int, bound: int, choice: seq<int>,
                          birthDraws: seq<real>, stagger: seq<real>, deathDraws: seq<real>)
    requires BirthReady(e, choice, birthDraws, stagger)
    requires |deathDraws| == |e.states|
    requires unbound != bound
    requires Birth(e, unbound, choice, birthDraws, stagger).Ok?
    ensures var b := Birth(e, unbound, choice, birthDraws, stagger).value;
      DeathIds(b.ext, bound, deathDraws) == DeathIds(e, bound, deathDraws)
  {
    var b := Birth(e, unbound, choice, birthDraws, stagger).value;
    BirthLeavesOthers(e, unbound, choice, birthDraws, stagger);
    DeathIdsSeeBound(e, b.ext, bound, deathDraws);
  }

  /** The update `update_states` returns is the birth outcome, the deaths
      selected after it, and the states and unloading applied to both. */
  lemma UpdateStatesUnfold(e: Extruder, unbound: int, bound: int, choice: seq<int>,
                           birthDraws: seq<real>, stagger: seq<real>, deathDraws: seq<real>)
    requires BirthReady(e, choice, birthDraws, stagger)
    requires |deathDraws| == |e.states|
    requires UpdateStates(e, unbound, bound, choice, birthDraws, stagger, deathDraws).Ok?
    ensures Birth(e, unbound, choice, birthDraws, stagger).Ok?
    ensures var b := Birth(e, unbound, choice, birthDraws, stagger).value;
      var u := UpdateStates(e, unbound, bound, choice, birthDraws, stagger, deathDraws).value;
      && u.births == b.ids && u.deaths == DeathIds(b.ext, bound, deathDraws)
      && (forall k :: 0 <= k < |u.deaths| ==> u.deaths[k] < |b.ext.states|)
      && u.ext == Settle(b.ext, b.ids, u.deaths, unbound, bound)
  {
    var b := Birth(e, unbound, choice, birthDraws, stagger).value;
    var deaths := DeathIds(b.ext, bound, deathDraws);
    assert forall k :: 0 <= k < |deaths| ==> deaths[k] in deaths;
  }

  /** Deaths are judged on the pre-birth anchors of the bound LEFs, so with
      distinct ids they never meet births; the dead are parked at `-1` with
      no stall, every LEF neither born nor dead keeps its anchors and flags,
      and the states stay within `{unbound, bound}` when they started there. */
  lemma UpdateStatesRule(e: Extruder, unbound: int, bound: int, choice: seq<int>,
                         birthDraws: seq<real>, stagger: seq<real>, deathDraws: seq<real>)
    requires BirthReady(e, choice, birthDraws, stagger)
    requires |deathDraws| == |e.states|
    requires unbound != bound
    requires UpdateStates(e, unbound, bound, choice, birthDraws, stagger, deathDraws).Ok?
    ensures var u := UpdateStates(e, unbound, bound, choice, birthDraws, stagger, deathDraws).value;
      && (forall i: nat :: i in u.deaths <==>
            && i < |e.states|
            && e.states[i] == bound
            && (|| deathDraws[i] < AnchorDeathProb(e, e.stalled[i].left, e.positions[i].left)
                || deathDraws[i] < AnchorDeathProb(e, e.stalled[i].right, e.positions[i].right)))
      && (forall i: nat :: !(i in u.births && i in u.deaths))
      && (forall i: nat :: i < |e.states| && i in u.deaths ==>
            u.ext.positions[i] == Pair(NoSite, NoSite) && u.ext.stalled[i] == Pair(false, false))
      && (forall i: nat :: i < |e.states| && i !in u.deaths && i !in u.births ==>
            u.ext.positions[i] == e.positions[i] && u.ext.stalled[i] == e.stalled[i])
      && ((forall i :: 0 <= i < |e.states| ==> e.states[i] == unbound || e.states[i] == bound) ==>
            forall i :: 0 <= i < |e.states| ==> u.ext.states[i] == unbound || u.ext.states[i] == bound)
  {
    UpdateStatesUnfold(e, unbound, bound, choice, birthDraws, stagger, deathDraws);
    DeathsSeePreBirth(e, unbound, bound, choice, birthDraws, stagger, deathDraws);
    BirthLeavesOthers(e, unbound, choice, birthDraws, stagger);
    BirthKeepsOthers(e, unbound, choice, birthDraws, stagger);
  }

  /** What one `step` produced at each stage, in order. */
  datatype StepTrace = StepTrace(updated: Update, occupancies: Extruder, parent: Extruder, stepped: Extruder)

  /** `step` as intended: `update_states`, then `update_occupancies`, then
      the parent class's step, then the stepping kernel, given the unbound id
      (for its diffusion pass) and the active id. The three later stages are
      not part of this model and are given as functions; `engine` stands for
      the kernel of the chosen backend mode. */
  function Step(e: Extruder, unbound: int, bound: int, active: int,
                choice: seq<int>, birthDraws: seq<real>, stagger: seq<real>, deathDraws: seq<real>,
                updateOccupancies: Extruder -> Extruder, parentStep: Extruder -> Extruder,
                engine: (Extruder, int, int) -> Extruder): (r: Result<StepTrace>)
    requires BirthReady(e, choice, birthDraws, stagger)
    requires |deathDraws| == |e.states|
    // a failing birth stops the step before any later stage runs
    ensures r.Err? <==> BirthFails(e, unbound, choice, birthDraws)
    ensures r.Ok? ==>
      var t := r.value;
      // the occupancy is first recomputed from the states and anchors `update_states` left
      && SameShape(e, t.updated.ext) && t.updated.ext.occupied == e.occupied
      && (forall i: nat :: i < |e.states| ==>
            t.updated.ext.states[i] ==
              (if i in t.updated.deaths then unbound else if i in t.updated.births then bound else e.states[i]))
      && t.occupancies == updateOccupancies(t.updated.ext)
      && t.parent == parentStep(t.occupancies)
      && t.stepped == engine(t.parent, unbound, active)
  {
    var u :- UpdateStates(e, unbound, bound, choice, birthDraws, stagger, deathDraws);
    var occupancies := updateOccupancies(u.ext);
    var parent := parentStep(occupancies);
    Ok(StepTrace(u, occupancies, parent, engine(parent, unbound, active)))
  }

  /** `step` as written: the kernel call passes the active id in the slot
      of the unbound id and gives no value for the active id, so once
      `update_states`, `update_occupancies` and the parent step have run the
      call itself fails. A failing birth fails first, as in `Step`. */
  function StepAsWritten(e: Extruder, unbound: int, bound: int, active: int,
                         choice: seq<int>, birthDraws: seq<real>, stagger: seq<real>, deathDraws: seq<real>,
                         updateOccupancies: Extruder -> Extruder, parentStep: Extruder -> Extruder,
                         engine: (Extruder, int, int) -> Extruder): (r: Result<StepTrace>)
    requires BirthReady(e, choice, birthDraws, stagger)
    requires |deathDraws| == |e.states|
    ensures r.Err?
    ensures r.error == (if BirthFails(e, unbound, choice, birthDraws) then BirthError(e) else MissingArgument)
  {
    // the stages before the kernel call run; their results are lost with the failure
    var u :- UpdateStates(e, unbound, bound, choice, birthDraws, stagger, deathDraws);
    Err(MissingArgument)
  }

  /** The discrepancy: every step the intended `Step` completes, the step as
      written abandons at the kernel call, after the earlier stages ran. */
  lemma StepAsWrittenNeverSteps(e: Extruder, unbound: int, bound: int, active: int,
                                choice: seq<int>, birthDraws: seq<real>, stagger: seq<real>, deathDraws: seq<real>,
                                updateOccupancies: Extruder -> Extruder, parentStep: Extruder -> Extruder,
                                engine: (Extruder, int, int) -> Extruder)
    requires BirthReady(e, choice, birthDraws, stagger)
    requires |deathDraws| == |e.states|
    ensures Step(e, unbound, bound, active, choice, birthDraws, stagger, deathDraws,
                 updateOccupancies, parentStep, engine).Ok?
      <==> StepAsWritten(e, unbound, bound, active, choice, birthDraws, stagger, deathDraws,
                         updateOccupancies, parentStep, engine) == Err(MissingArgument)
  {
  }

  /** Five sites with occupied ends and two unbound LEFs, every birth
      probability one. */
  function StackExample(): (e: Extruder)
    ensures Shaped(e) && |e.states| == 2
  {
    Extruder([1.0, 1.0, 1.0, 1.0, 1.0], [0.0, 0.0, 0.0, 0.0, 0.0],
             [0.0, 0.0, 0.0, 0.0, 0.0], [0.0, 0.0, 0.0, 0.0, 0.0],
             [0, 0], [Pair(NoSite, NoSite), Pair(NoSite, NoSite)],
             [true, false, false, false, true],
             [Pair(false, false), Pair(false, false)])
  }

  /** In the example, sites 1 and 2 are a possible draw of two free sites,
      and neither is the last site. */
  lemma StackExampleReady()
    ensures BirthReady(StackExample(), [1, 2], [0.0, 0.0], [0.0, 0.9])
    ensures IsSample([1, 2], StackExample().occupied, 2)
    ensures !BornOnLastSite(StackExample(), 0, [1, 2], [0.0, 0.0])
    ensures |FreeSites(StackExample().occupied)| >= 2
  {
    var e := StackExample();
    assert |FreeSites(e.occupied)| >= 2 by {
      var free := FreeSites(e.occupied);
      assert 1 in free && 2 in free;
      var i :| 0 <= i < |free| && free[i] == 1;
      var j :| 0 <= j < |free| && free[j] == 2;
      assert i != j;
    }
  }

  /** An increasing sequence holding exactly 0 and 1 is `[0, 1]`. */
  lemma {:induction false} ExactlyZeroOne(ids: seq<nat>)
    requires Increasing(ids)
    requires forall i: nat :: i in ids <==> i < 2
    ensures ids == [0, 1]
  {
    assert forall k :: 0 <= k < |ids| ==> ids[k] in ids;
    IncreasingBounded(ids, 2);
    assert 0 in ids && 1 in ids;
    assert ids[0] < ids[1];
  }

  /** In the example, offered sites 1 and 2 with draws of zero, both LEFs
      are born. */
  lemma StackExampleBirths()
    ensures BirthReady(StackExample(), [1, 2], [0.0, 0.0], [0.0, 0.9])
    ensures Birth(StackExample(), 0, [1, 2], [0.0, 0.0], [0.0, 0.9]).Ok?
    ensures Birth(StackExample(), 0, [1, 2], [0.0, 0.0], [0.0, 0.9]).value.ids == [0, 1]
  {
    var e := StackExample();
    StackExampleReady();
    var ids := Birth(e, 0, [1, 2], [0.0, 0.0], [0.0, 0.9]).value.ids;
    BirthSelects(e, 0, [1, 2], [0.0, 0.0], [0.0, 0.9]);
    forall i: nat ensures i in ids <==> i < 2 {
      if i < 2 {
        assert e.states[i] == 0 && e.birthProb[[1, 2][i]] == 1.0;
      }
    }
    ExactlyZeroOne(ids);
  }

  /** Two newborns may stack: the stagger check reads the occupancy from
      before the birth, so a LEF can stagger onto the site another LEF is
      born on in the same call. In the example both LEFs are born and the
      first staggers onto site 2, where the second sits. */
  lemma NewbornsMayStack()
    ensures Birth(StackExample(), 0, [1, 2], [0.0, 0.0], [0.0, 0.9]).Ok?
    ensures var b := Birth(StackExample(), 0, [1, 2], [0.0, 0.0], [0.0, 0.9]).value;
      b.ext.positions[0] == Pair(1, 2) && b.ext.positions[1] == Pair(2, 2)
  {
    StackExampleBirths();
    BirthRule(StackExample(), 0, [1, 2], [0.0, 0.0], [0.0, 0.9]);
  }
}
