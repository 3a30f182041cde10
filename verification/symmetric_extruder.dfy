/**
 The multistate symmetric extruder: a sequential engine in which LEFs bind
 onto free sites, extrude symmetrically (left anchor towards lower sites,
 right anchor towards higher sites) one site per step into free sites, stall
 at barriers and unbind. Occupancy is updated incrementally, so a LEF handled
 later in a step sees the moves of LEFs handled earlier.

 States: `Unbound` (0) and `Bound` (1) are the defaults of `step`; the
 extruding state `Active` is the bound state.
 */
module SymmetricExtruder {
  import opened Lattice
  import DynamicBoundary

  const Unbound: int := 0
  const Bound: int := 1
  const Active: int := 1

  /** The invariant of every reachable state (default ids): boundary sites
      occupied, every LEF either unbound with sentinel positions and no stall
      flag, or bound with both anchors in the interior. No exclusion between
      anchors is claimed: moving an anchor frees its old site even when the
      other anchor of the same LEF still sits there. */
  predicate Inv(e: Extruder) {
    && Shaped(e)
    && Walled(e.occupied)
    && forall i :: 0 <= i < |e.states| ==>
         || (e.states[i] == Unbound && e.positions[i] == Pair(NoSite, NoSite)
             && e.stalled[i] == Pair(false, false))
         || (e.states[i] == Bound && Interior(e.positions[i], |e.occupied|))
  }

  /** The constructor: all LEFs unbound at `-1` with no stall flag, and only
      the two boundary sites occupied. */
  function Init(numLef: nat, birthProb: seq<real>, deathProb: seq<real>,
                stalledDeathProb: seq<real>, pauseProb: seq<real>): (r: Result<Extruder>)
    requires |deathProb| == |birthProb| && |stalledDeathProb| == |birthProb| && |pauseProb| == |birthProb|
    ensures r.Err? <==> |birthProb| == 0
    ensures r.Ok? ==>
      && Inv(r.value)
      && r.value.birthProb == birthProb && r.value.deathProb == deathProb
      && r.value.stalledDeathProb == stalledDeathProb && r.value.pauseProb == pauseProb
      && |r.value.states| == numLef
      && (forall i :: 0 <= i < numLef ==>
            && r.value.states[i] == Unbound
            && r.value.positions[i] == Pair(NoSite, NoSite)
            && r.value.stalled[i] == Pair(false, false))
      && (forall s :: 0 <= s < |birthProb| ==>
            (r.value.occupied[s] <==> s == 0 || s == |birthProb| - 1))
  {
    var n := |birthProb|;
    if n == 0 then Err(EmptyLattice)
    else
      Ok(Extruder(birthProb, deathProb, stalledDeathProb, pauseProb,
                  seq(numLef, _ => Unbound),
                  seq(numLef, _ => Pair(NoSite, NoSite)),
                  seq(n, s => s == 0 || s == n - 1),
                  seq(numLef, _ => Pair(false, false))))
  }

  // ---------------------------------------------------------------------------
  // lef_step

  /** The four draws one LEF may consume in `lef_step`: the two stall draws,
      then the two move draws (a move draw is only taken when that anchor is
      free to try; the value given here is the one it would read). */
  datatype StepDraw = StepDraw(stallLeft: real, stallRight: real, moveLeft: real, moveRight: real)

  /** Indices `lef_step` reads for one LEF are valid without wrap-around. */
  predicate Steppable(p: Pair<int>, n: nat) {
    1 <= p.left < n && 0 <= p.right < n - 1
  }

  /** One iteration of the `lef_step` loop, for a LEF in the active state:
      raise stall flags from the barrier's stall probabilities at the anchors'
      current sites, then move each anchor that is not stalled one site
      outward if the target is free and its draw exceeds the pause
      probability at the current site. */
  function AdvanceLef(e: Extruder, i: nat, probLeft: seq<real>, probRight: seq<real>, d: StepDraw)
    : (r: Extruder)
    requires Shaped(e) && i < |e.states|
    requires |probLeft| == |e.occupied| && |probRight| == |e.occupied|
    requires Steppable(e.positions[i], |e.occupied|)
    ensures Shaped(r) && SameShape(e, r) && r.states == e.states
    // nothing of any other LEF changes
    ensures forall j :: 0 <= j < |e.states| && j != i ==>
      r.positions[j] == e.positions[j] && r.stalled[j] == e.stalled[j]
  {
    var p := e.positions[i];
    var stall := Pair(e.stalled[i].left || d.stallLeft < probLeft[p.left],
                      e.stalled[i].right || d.stallRight < probRight[p.right]);
    var cur1, cur2 := p.left, p.right;
    var moveLeft := !stall.left && !e.occupied[cur1 - 1] && d.moveLeft > e.pauseProb[cur1];
    var occ1 := if moveLeft then e.occupied[cur1 - 1 := true][cur1 := false] else e.occupied;
    var left := if moveLeft then cur1 - 1 else cur1;
    var moveRight := !stall.right && !occ1[cur2 + 1] && d.moveRight > e.pauseProb[cur2];
    var occ2 := if moveRight then occ1[cur2 + 1 := true][cur2 := false] else occ1;
    var right := if moveRight then cur2 + 1 else cur2;
    e.(occupied := occ2,
       positions := e.positions[i := Pair(left, right)],
       stalled := e.stalled[i := stall])
  }

  /** The rule one iteration of `lef_step` applies to an active LEF. */
  lemma AdvanceLefRule(e: Extruder, i: nat, probLeft: seq<real>, probRight: seq<real>, d: StepDraw)
    requires Shaped(e) && i < |e.states|
    requires |probLeft| == |e.occupied| && |probRight| == |e.occupied|
    requires Steppable(e.positions[i], |e.occupied|)
    ensures var r := AdvanceLef(e, i, probLeft, probRight, d);
      var p, q := e.positions[i], r.positions[i];
      // stall flags are raised by the draws and never cleared
      && r.stalled[i].left == (e.stalled[i].left || d.stallLeft < probLeft[p.left])
      && r.stalled[i].right == (e.stalled[i].right || d.stallRight < probRight[p.right])
      && (q.left == p.left - 1 || q.left == p.left)
      && (q.right == p.right + 1 || q.right == p.right)
      // the left anchor moves exactly when unstalled, its target free, and its draw beats the pause
      && (q.left != p.left <==>
            !r.stalled[i].left && !e.occupied[p.left - 1] && d.moveLeft > e.pauseProb[p.left])
      // the right anchor moves only when unstalled, its draw beats the pause, and its target
      // was free when checked (free before the step, or just vacated by the left anchor)
      && (q.right != p.right ==>
            && !r.stalled[i].right && d.moveRight > e.pauseProb[p.right]
            && (!e.occupied[p.right + 1] || (q.left != p.left && p.right + 1 == p.left)))
      // for an ordered pair the left move cannot affect the right check
      && (p.left <= p.right ==>
            (q.right != p.right <==>
               !r.stalled[i].right && !e.occupied[p.right + 1] && d.moveRight > e.pauseProb[p.right]))
      // a right move occupies its target and frees its old site
      && (q.right != p.right ==> r.occupied[q.right] && !r.occupied[p.right])
      // so does a left move, when the pair is ordered
      && (p.left <= p.right && q.left != p.left ==> r.occupied[q.left] && !r.occupied[p.left])
      // occupancy changes only at the anchors' old and new sites; only old sites are freed
      && (forall t :: 0 <= t < |e.occupied| && r.occupied[t] != e.occupied[t] ==>
            t == p.left - 1 || t == p.left || t == p.right || t == p.right + 1)
      && (forall t :: 0 <= t < |e.occupied| && e.occupied[t] && !r.occupied[t] ==>
            t == p.left || t == p.right)
  {
  }

  /** Moving an anchor marks its old site free even when the LEF's other
      anchor still sits there: a LEF bound unstaggered at site 2 whose left
      anchor steps out while its right anchor is stalled leaves site 2 marked
      free under its right anchor. So occupancy is not the set of anchor
      sites, and no exclusion between LEFs follows from it. */
  lemma AnchorSiteMayBeFree()
    ensures var e := Extruder([1.0, 1.0, 1.0, 1.0, 1.0], [0.0, 0.0, 0.0, 0.0, 0.0],
                              [0.0, 0.0, 0.0, 0.0, 0.0], [0.0, 0.0, 0.0, 0.0, 0.0],
                              [Bound], [Pair(2, 2)], [true, false, true, false, true],
                              [Pair(false, false)]);
      var r := AdvanceLef(e, 0, [0.0, 0.0, 0.0, 0.0, 0.0], [0.0, 0.0, 1.0, 0.0, 0.0],
                          StepDraw(0.5, 0.0, 0.5, 0.5));
      && Inv(e)
      && r.positions[0] == Pair(1, 2)
      && !r.occupied[2]
  {
  }

  /** Requirements of a `lef_step` pass: every active LEF can be stepped. */
  predicate PassReady(e: Extruder, active: int, probLeft: seq<real>, probRight: seq<real>,
                       draws: seq<StepDraw>) {
    && Shaped(e)
    && |probLeft| == |e.occupied| && |probRight| == |e.occupied|
    && |draws| == |e.states|
    && forall j :: 0 <= j < |e.states| && e.states[j] == active ==>
         Steppable(e.positions[j], |e.occupied|)
  }

  /** The `lef_step` loop after its first `k` iterations: LEFs `0..k-1`
      handled in index order, each seeing the occupancy left by the ones
      before it. */
  function LefStepUpTo(e: Extruder, active: int, probLeft: seq<real>, probRight: seq<real>,
                       draws: seq<StepDraw>, k: nat): (r: Extruder)
    requires PassReady(e, active, probLeft, probRight, draws)
    requires k <= |e.states|
    ensures Shaped(r) && SameShape(e, r) && r.states == e.states
    // LEFs not yet handled, and LEFs in another state, are untouched
    ensures forall j :: 0 <= j < |e.states| && (k <= j || e.states[j] != active) ==>
      r.positions[j] == e.positions[j] && r.stalled[j] == e.stalled[j]
    decreases k
  {
    if k == 0 then e
    else
      var prev := LefStepUpTo(e, active, probLeft, probRight, draws, k - 1);
      if e.states[k - 1] == active then AdvanceLef(prev, k - 1, probLeft, probRight, draws[k - 1])
      else prev
  }

  /** What one handled active LEF has become after the pass. */
  predicate Stepped(e: Extruder, r: Extruder, j: nat, probLeft: seq<real>, probRight: seq<real>,
                    d: StepDraw)
    requires Shaped(e) && SameShape(e, r) && j < |e.states|
    requires |probLeft| == |e.occupied| && |probRight| == |e.occupied|
    requires Steppable(e.positions[j], |e.occupied|)
  {
    var p, q := e.positions[j], r.positions[j];
    // stall flags: raised by the draw at the anchor's site, never cleared
    && r.stalled[j].left == (e.stalled[j].left || d.stallLeft < probLeft[p.left])
    && r.stalled[j].right == (e.stalled[j].right || d.stallRight < probRight[p.right])
    // one site outward at most, never while stalled, only when the draw beats the pause
    && (q.left == p.left - 1 || q.left == p.left)
    && (q.right == p.right + 1 || q.right == p.right)
    && (q.left != p.left ==> !r.stalled[j].left && d.moveLeft > e.pauseProb[p.left])
    && (q.right != p.right ==> !r.stalled[j].right && d.moveRight > e.pauseProb[p.right])
  }

  /** Every active LEF handled so far has followed the per-LEF rule: its
      stall flags grew exactly by the draws at its sites, and each anchor
      moved at most one site outward, never while stalled. */
  lemma {:induction false} LefStepRules(e: Extruder, active: int, probLeft: seq<real>,
                                        probRight: seq<real>, draws: seq<StepDraw>, k: nat)
    requires PassReady(e, active, probLeft, probRight, draws)
    requires k <= |e.states|
    ensures var r := LefStepUpTo(e, active, probLeft, probRight, draws, k);
      forall j :: 0 <= j < k && e.states[j] == active ==>
        Stepped(e, r, j, probLeft, probRight, draws[j])
  {
    if k > 0 {
      LefStepRules(e, active, probLeft, probRight, draws, k - 1);
      if e.states[k - 1] == active {
        var prev := LefStepUpTo(e, active, probLeft, probRight, draws, k - 1);
        AdvanceLefRule(prev, k - 1, probLeft, probRight, draws[k - 1]);
      }
    }
  }

  /** Bound anchors inside the lattice, boundary sites occupied. */
  predicate Contained(e: Extruder, active: int)
    requires Shaped(e)
  {
    && Walled(e.occupied)
    && forall j :: 0 <= j < |e.states| && e.states[j] == active ==>
         Interior(e.positions[j], |e.occupied|)
  }

  /** The only sites a pass frees are anchors' old sites and the only sites
      it fills were free, so the boundary sites stay occupied and no active
      anchor ever reaches them. */
  lemma {:induction false} LefStepContained(e: Extruder, active: int, probLeft: seq<real>,
                                            probRight: seq<real>, draws: seq<StepDraw>, k: nat)
    requires PassReady(e, active, probLeft, probRight, draws)
    requires k <= |e.states|
    requires Contained(e, active)
    ensures Contained(LefStepUpTo(e, active, probLeft, probRight, draws, k), active)
  {
    if k > 0 {
      LefStepContained(e, active, probLeft, probRight, draws, k - 1);
      if e.states[k - 1] == active {
        var prev := LefStepUpTo(e, active, probLeft, probRight, draws, k - 1);
        AdvanceLefRule(prev, k - 1, probLeft, probRight, draws[k - 1]);
      }
    }
  }

  /** One iteration of the `lef_step` loop, written as `lef_step`'s
      in-place updates of the LEF's stall flags, the occupancy and the
      LEF's positions. */
  method AdvanceInPlace(x: Extruder, i: nat, probLeft: seq<real>, probRight: seq<real>, d: StepDraw)
    returns (y: Extruder)
    requires Shaped(x) && i < |x.states|
    requires |probLeft| == |x.occupied| && |probRight| == |x.occupied|
    requires Steppable(x.positions[i], |x.occupied|)
    ensures y == AdvanceLef(x, i, probLeft, probRight, d)
  {
    var positions, occupied, stalled := x.positions, x.occupied, x.stalled;
    var stall1 := probLeft[positions[i].left];
    var stall2 := probRight[positions[i].right];
    if d.stallLeft < stall1 {
      stalled := stalled[i := stalled[i].(left := true)];
    }
    if d.stallRight < stall2 {
      stalled := stalled[i := stalled[i].(right := true)];
    }
    var cur1, cur2 := positions[i].left, positions[i].right;
    if !stalled[i].left && !occupied[cur1 - 1] {
      var pause1 := x.pauseProb[cur1];
      if d.moveLeft > pause1 {
        occupied := occupied[cur1 - 1 := true][cur1 := false];
        positions := positions[i := positions[i].(left := cur1 - 1)];
      }
    }
    if !stalled[i].right && !occupied[cur2 + 1] {
      var pause2 := x.pauseProb[cur2];
      if d.moveRight > pause2 {
        occupied := occupied[cur2 + 1 := true][cur2 := false];
        positions := positions[i := positions[i].(right := cur2 + 1)];
      }
    }
    y := x.(positions := positions, occupied := occupied, stalled := stalled);
  }

  /** `lef_step`: its loop over all LEFs in index order, stepping
      those in the active state; it computes exactly the sequential pass
      `LefStepUpTo(.., M)`. */
  method LefStep(e: Extruder, active: int, probLeft: seq<real>, probRight: seq<real>,
                 draws: seq<StepDraw>) returns (r: Extruder)
    requires PassReady(e, active, probLeft, probRight, draws)
    ensures r == LefStepUpTo(e, active, probLeft, probRight, draws, |e.states|)
  {
    r := e;
    var i := 0;
    while i < |e.states|
      invariant 0 <= i <= |e.states|
      invariant r == LefStepUpTo(e, active, probLeft, probRight, draws, i)
    {
      if e.states[i] == active {
        r := AdvanceInPlace(r, i, probLeft, probRight, draws[i]);
      }
      i := i + 1;
    }
  }

  // ---------------------------------------------------------------------------
  // lef_birth, lef_death, update_LEF_arrays, update_states

  /** `binding_sites[ids]`: the sites offered to the LEFs that are born. */
  function BornSites(choice: seq<int>, ids: seq<nat>): (sites: seq<int>)
    requires forall k :: 0 <= k < |ids| ==> ids[k] < |choice|
    ensures |sites| == |ids|
  {
    seq(|ids|, k requires 0 <= k < |ids| => choice[ids[k]])
  }

  /** Whether the `k`-th born LEF staggers its right anchor: its stagger draw
      is below one half and the next site is free once every newly bound
      site has been marked. */
  predicate Staggers(e: Extruder, choice: seq<int>, ids: seq<nat>, stagger: seq<real>, k: nat)
    requires PlaceReady(e, choice, ids, stagger) && k < |ids|
  {
    var c := choice[ids[k]];
    stagger[k] < 0.5 && !(e.occupied[c + 1] || c + 1 in BornSites(choice, ids))
  }

  /** Anchor positions after `lef_birth`: the `k`-th born LEF sits on its
      offered site, its right anchor one further when it staggers. */
  function PlaceBorn(e: Extruder, choice: seq<int>, ids: seq<nat>, stagger: seq<real>)
    : (positions: seq<Pair<int>>)
    requires PlaceReady(e, choice, ids, stagger)
    ensures |positions| == |e.positions|
    ensures forall i: nat :: i < |e.positions| && i !in ids ==> positions[i] == e.positions[i]
    ensures forall k :: 0 <= k < |ids| ==>
      var c := choice[ids[k]];
      positions[ids[k]] == Pair(c, if Staggers(e, choice, ids, stagger, k) then c + 1 else c)
  {
    assert forall k :: 0 <= k < |ids| ==> IndexOf(ids, ids[k]) == k;
    seq(|e.positions|, i requires 0 <= i < |e.positions| =>
      if i in ids then
        var k := IndexOf(ids, i);
        var c := choice[i];
        Pair(c, if Staggers(e, choice, ids, stagger, k) then c + 1 else c)
      else e.positions[i])
  }

  /** Placement keeps every anchor a valid index: a newborn's sites are its
      offered site and the next one, both on the lattice. */
  lemma PlaceBornInRange(e: Extruder, choice: seq<int>, ids: seq<nat>, stagger: seq<real>)
    requires PlaceReady(e, choice, ids, stagger)
    ensures Shaped(e.(positions := PlaceBorn(e, choice, ids, stagger)))
  {
    var n := |e.occupied|;
    var positions := PlaceBorn(e, choice, ids, stagger);
    forall i | 0 <= i < |positions|
      ensures -n <= positions[i].left < n && -n <= positions[i].right < n
    {
      if i in ids {
        var k :| 0 <= k < |ids| && ids[k] == i;
        assert 0 <= choice[ids[k]] < n - 1;
      }
    }
  }

  /** Occupancy after `lef_birth`: every born site, then every stagger target. */
  function MarkBorn(e: Extruder, choice: seq<int>, ids: seq<nat>, stagger: seq<real>)
    : (occupied: seq<bool>)
    requires PlaceReady(e, choice, ids, stagger)
    ensures |occupied| == |e.occupied|
  {
    var sites := BornSites(choice, ids);
    var marked := seq(|e.occupied|, t requires 0 <= t < |e.occupied| => e.occupied[t] || t in sites);
    seq(|e.occupied|, t requires 0 <= t < |e.occupied| =>
      marked[t] || exists k :: 0 <= k < |ids| && Staggers(e, choice, ids, stagger, k) && sites[k] + 1 == t)
  }

  /** The sites `lef_birth` marks are exactly the new anchor sites. */
  lemma MarkBornSites(e: Extruder, choice: seq<int>, ids: seq<nat>, stagger: seq<real>)
    requires PlaceReady(e, choice, ids, stagger)
    ensures var occupied, positions := MarkBorn(e, choice, ids, stagger), PlaceBorn(e, choice, ids, stagger);
      forall t :: 0 <= t < |e.occupied| ==>
        (occupied[t] <==>
           || e.occupied[t]
           || exists k :: 0 <= k < |ids| && (t == positions[ids[k]].left || t == positions[ids[k]].right))
  {
    forall t | 0 <= t < |e.occupied| {
      MarkBornSite(e, choice, ids, stagger, t);
    }
  }

  /** Where `lef_birth` puts the `k`-th newborn, in terms of its offered site. */
  lemma PlaceBornAt(e: Extruder, choice: seq<int>, ids: seq<nat>, stagger: seq<real>, k: nat)
    requires PlaceReady(e, choice, ids, stagger) && k < |ids|
    ensures var c := BornSites(choice, ids)[k];
      PlaceBorn(e, choice, ids, stagger)[ids[k]] == Pair(c, if Staggers(e, choice, ids, stagger, k) then c + 1 else c)
  {
  }

  /** `MarkBornSites` at one site `t`. */
  lemma MarkBornSite(e: Extruder, choice: seq<int>, ids: seq<nat>, stagger: seq<real>, t: nat)
    requires PlaceReady(e, choice, ids, stagger) && t < |e.occupied|
    ensures var positions := PlaceBorn(e, choice, ids, stagger);
      MarkBorn(e, choice, ids, stagger)[t] <==>
        || e.occupied[t]
        || exists k :: 0 <= k < |ids| && (t == positions[ids[k]].left || t == positions[ids[k]].right)
  {
    var positions := PlaceBorn(e, choice, ids, stagger);
    var sites := BornSites(choice, ids);
    assert MarkBorn(e, choice, ids, stagger)[t] ==
      (|| e.occupied[t] || t in sites
       || exists k :: 0 <= k < |ids| && Staggers(e, choice, ids, stagger, k) && sites[k] + 1 == t);
    MarkedIsAnchored(e, choice, ids, stagger, t);
    AnchoredIsMarked(e, choice, ids, stagger, t);
  }

  /** A site newly marked by `lef_birth` holds a newborn anchor. */
  lemma MarkedIsAnchored(e: Extruder, choice: seq<int>, ids: seq<nat>, stagger: seq<real>, t: nat)
    requires PlaceReady(e, choice, ids, stagger)
    ensures var sites, positions := BornSites(choice, ids), PlaceBorn(e, choice, ids, stagger);
      (|| t in sites
       || exists k :: 0 <= k < |ids| && Staggers(e, choice, ids, stagger, k) && sites[k] + 1 == t)
      ==> exists k :: 0 <= k < |ids| && (t == positions[ids[k]].left || t == positions[ids[k]].right)
  {
    var sites, positions := BornSites(choice, ids), PlaceBorn(e, choice, ids, stagger);
    if t in sites {
      var k :| 0 <= k < |sites| && sites[k] == t;
      PlaceBornAt(e, choice, ids, stagger, k);
    } else if exists k :: 0 <= k < |ids| && Staggers(e, choice, ids, stagger, k) && sites[k] + 1 == t {
      var k :| 0 <= k < |ids| && Staggers(e, choice, ids, stagger, k) && sites[k] + 1 == t;
      PlaceBornAt(e, choice, ids, stagger, k);
    }
  }

  /** Every newborn anchor site is marked by `lef_birth`. */
  lemma AnchoredIsMarked(e: Extruder, choice: seq<int>, ids: seq<nat>, stagger: seq<real>, t: nat)
    requires PlaceReady(e, choice, ids, stagger)
    ensures var sites, positions := BornSites(choice, ids), PlaceBorn(e, choice, ids, stagger);
      (exists k :: 0 <= k < |ids| && (t == positions[ids[k]].left || t == positions[ids[k]].right))
      ==> || t in sites
          || exists k :: 0 <= k < |ids| && Staggers(e, choice, ids, stagger, k) && sites[k] + 1 == t
  {
    var sites, positions := BornSites(choice, ids), PlaceBorn(e, choice, ids, stagger);
    if exists k :: 0 <= k < |ids| && (t == positions[ids[k]].left || t == positions[ids[k]].right) {
      var k :| 0 <= k < |ids| && (t == positions[ids[k]].left || t == positions[ids[k]].right);
      PlaceBornAt(e, choice, ids, stagger, k);
      if t == sites[k] {
        assert t in sites;
      }
    }
  }

  /** The state `AnchorSiteMayBeFree` reaches, on a lattice of six sites
      with a second, unbound LEF: site 2 holds the right anchor of LEF 0 but
      is marked free. */
  function MeetExample(): (e: Extruder)
    ensures Shaped(e) && |e.states| == 2
  {
    Extruder([1.0, 1.0, 1.0, 1.0, 1.0, 1.0], [0.0, 0.0, 0.0, 0.0, 0.0, 0.0],
             [0.0, 0.0, 0.0, 0.0, 0.0, 0.0], [0.0, 0.0, 0.0, 0.0, 0.0, 0.0],
             [Bound, Unbound], [Pair(1, 2), Pair(NoSite, NoSite)],
             [true, true, false, false, false, true],
             [Pair(false, false), Pair(false, false)])
  }

  /** In the example, sites 3 and 2 are a possible draw of two free sites,
      and neither is the last site. */
  lemma MeetExampleReady()
    ensures Inv(MeetExample())
    ensures BirthReady(MeetExample(), [3, 2], [0.0, 0.0], [0.9, 0.9])
    ensures IsSample([3, 2], MeetExample().occupied, 2)
    ensures !BornOnLastSite(MeetExample(), Unbound, [3, 2], [0.0, 0.0])
    ensures |FreeSites(MeetExample().occupied)| >= 2
  {
    var e := MeetExample();
    assert |FreeSites(e.occupied)| >= 2 by {
      var free := FreeSites(e.occupied);
      assert 2 in free && 3 in free;
      var i :| 0 <= i < |free| && free[i] == 2;
      var j :| 0 <= j < |free| && free[j] == 3;
      assert i != j;
    }
  }

  /** An increasing sequence holding exactly `1` is `[1]`. */
  lemma {:induction false} ExactlyOne(ids: seq<nat>)
    requires Increasing(ids)
    requires forall i: nat :: i in ids <==> i == 1
    ensures ids == [1]
  {
    assert 1 in ids;
    assert forall k :: 0 <= k < |ids| ==> ids[k] in ids;
    IncreasingHead(ids);
  }

  /** The first two entries of an increasing sequence differ. */
  lemma IncreasingHead(ids: seq<nat>)
    requires Increasing(ids)
    ensures |ids| >= 2 ==> ids[0] < ids[1]
  {
  }

  /** A newborn can land on another LEF's anchor: in the example only the
      unbound LEF 1 is born, on site 2, which LEF 0's right anchor still
      holds. So `NewbornsApart` excludes only sites marked occupied. */
  lemma NewbornMayMeetAnchor()
    ensures Inv(MeetExample())
    ensures LefBirth(MeetExample(), Unbound, [3, 2], [0.0, 0.0], [0.9, 0.9]).Ok?
    ensures var b := LefBirth(MeetExample(), Unbound, [3, 2], [0.0, 0.0], [0.9, 0.9]).value;
      && b.ids == [1]
      && b.ext.positions[1].left == 2 == b.ext.positions[0].right
  {
    var e := MeetExample();
    MeetExampleReady();
    var b := LefBirth(e, Unbound, [3, 2], [0.0, 0.0], [0.9, 0.9]).value;
    forall i: nat ensures i in b.ids <==> i == 1 {
      if i < 2 {
        assert e.birthProb[[3, 2][i]] == 1.0;
      }
    }
    ExactlyOne(b.ids);
    PlaceBornAt(e, [3, 2], b.ids, [0.9, 0.9], 0);
  }

  /** With nobody born, placement and marking change nothing (`lef_birth`
      skips them). */
  lemma PlaceNobody(e: Extruder, choice: seq<int>, stagger: seq<real>)
    requires PlaceReady(e, choice, [], stagger)
    ensures PlaceBorn(e, choice, [], stagger) == e.positions
    ensures MarkBorn(e, choice, [], stagger) == e.occupied
  {
  }

  /** `lef_birth`: every LEF is offered one of `M` distinct free sites; an
      unbound LEF whose draw is below the birth probability of its site is
      born there with both anchors on it, every born site is marked occupied,
      and then each born LEF's right anchor steps to the next site when its
      stagger draw is below one half and that site is still free. Fails, as
      numpy does, when fewer than `M` sites are free, or when a newborn sits
      on the last site (its stagger check reads past the end). */
  function LefBirth(e: Extruder, unbound: int, choice: seq<int>, draws: seq<real>, stagger: seq<real>)
    : (r: Result<Outcome>)
    requires BirthReady(e, choice, draws, stagger)
    ensures r.Err? <==> BirthFails(e, unbound, choice, draws)
    ensures r.Err? ==> r.error == BirthError(e)
    ensures r.Ok? ==>
      var x, ids := r.value.ext, r.value.ids;
      && IsSample(choice, e.occupied, |e.states|)
      && Shaped(x) && SameShape(e, x) && x.states == e.states && x.stalled == e.stalled
      && ids == BirthSelection(e, unbound, choice, draws, stagger)
      && x.positions == PlaceBorn(e, choice, ids, stagger)
      && x.occupied == MarkBorn(e, choice, ids, stagger)
  {
    if |FreeSites(e.occupied)| < |e.states| then Err(SampleLargerThanPopulation)
    else if BornOnLastSite(e, unbound, choice, draws) then Err(IndexOutOfRange)
    else
      var ids := BirthSelection(e, unbound, choice, draws, stagger);
      if |ids| == 0 then
        PlaceNobody(e, choice, stagger);
        Ok(Outcome(e, ids))
      else
        PlaceBornInRange(e, choice, ids, stagger);
        Ok(Outcome(e.(positions := PlaceBorn(e, choice, ids, stagger),
                      occupied := MarkBorn(e, choice, ids, stagger)), ids))
  }

  /** Each newborn sits on the site it was offered, which was free, and its
      right anchor, when staggered, on the next site, which was free too. */
  lemma NewbornsOnFreeSites(e: Extruder, choice: seq<int>, ids: seq<nat>, stagger: seq<real>)
    requires PlaceReady(e, choice, ids, stagger)
    requires IsSample(choice, e.occupied, |e.states|)
    ensures forall k :: 0 <= k < |ids| ==>
      var p := PlaceBorn(e, choice, ids, stagger)[ids[k]];
      && 0 <= p.left <= p.right < |e.occupied|
      && !e.occupied[p.left] && !e.occupied[p.right]
  {
    var positions := PlaceBorn(e, choice, ids, stagger);
    forall k | 0 <= k < |ids|
      ensures var p := positions[ids[k]];
        && 0 <= p.left <= p.right < |e.occupied|
        && !e.occupied[p.left] && !e.occupied[p.right]
    {
      var c := choice[ids[k]];
      assert positions[ids[k]] == Pair(c, if Staggers(e, choice, ids, stagger, k) then c + 1 else c);
    }
  }

  /** Born LEFs never share a site with each other and never land on a site
      marked occupied before the birth, and every new anchor site ends up
      occupied. A site marked free may still hold another LEF's anchor
      (`AnchorSiteMayBeFree`), and a newborn may land on it
      (`NewbornMayMeetAnchor`). */
  lemma NewbornsApart(e: Extruder, choice: seq<int>, ids: seq<nat>, stagger: seq<real>)
    requires PlaceReady(e, choice, ids, stagger)
    requires IsSample(choice, e.occupied, |e.states|)
    ensures var positions, occupied := PlaceBorn(e, choice, ids, stagger), MarkBorn(e, choice, ids, stagger);
      && (forall k :: 0 <= k < |ids| ==>
            var p := positions[ids[k]];
            && 0 <= p.left <= p.right < |e.occupied|
            && !e.occupied[p.left] && !e.occupied[p.right]
            && occupied[p.left] && occupied[p.right])
      && (forall k1, k2 :: 0 <= k1 < |ids| && 0 <= k2 < |ids| && k1 != k2 ==>
            var p1, p2 := positions[ids[k1]], positions[ids[k2]];
            p1.left != p2.left && p1.left != p2.right && p1.right != p2.left && p1.right != p2.right)
  {
    var positions := PlaceBorn(e, choice, ids, stagger);
    var sites := BornSites(choice, ids);
    MarkBornSites(e, choice, ids, stagger);
    forall k1, k2 | 0 <= k1 < |ids| && 0 <= k2 < |ids| && k1 != k2
      ensures var p1, p2 := positions[ids[k1]], positions[ids[k2]];
        p1.left != p2.left && p1.left != p2.right && p1.right != p2.left && p1.right != p2.right
    {
      assert ids[k1] != ids[k2] by {
        if k1 < k2 { assert ids[k1] < ids[k2]; } else { assert ids[k2] < ids[k1]; }
      }
      assert choice[ids[k1]] != choice[ids[k2]];
      assert sites[k1] == choice[ids[k1]] && sites[k2] == choice[ids[k2]];
    }
  }

  /** Some anchor of a LEF in `ids` sits (Python-indexed) on site `t`. */
  predicate Vacated(e: Extruder, ids: seq<nat>, t: int)
    requires Shaped(e)
    requires forall k :: 0 <= k < |ids| ==> ids[k] < |e.states|
  {
    exists k :: 0 <= k < |ids| &&
      (Wrap(e.positions[ids[k]].left, |e.occupied|) == t || Wrap(e.positions[ids[k]].right, |e.occupied|) == t)
  }

  /** `update_LEF_arrays`: the given LEFs lose their stall flags, both of
      their anchor sites are marked free, and their positions become `-1`. */
  function UpdateLefArrays(e: Extruder, ids: seq<nat>): (r: Extruder)
    requires Shaped(e)
    requires forall k :: 0 <= k < |ids| ==> ids[k] < |e.states|
    ensures Shaped(r) && SameShape(e, r) && r.states == e.states
    ensures forall i: nat :: i < |e.states| ==>
      if i in ids then r.positions[i] == Pair(NoSite, NoSite) && r.stalled[i] == Pair(false, false)
      else r.positions[i] == e.positions[i] && r.stalled[i] == e.stalled[i]
    ensures forall t :: 0 <= t < |e.occupied| ==> (r.occupied[t] <==> e.occupied[t] && !Vacated(e, ids, t))
  {
    var n := |e.occupied|;
    assert forall k :: 0 <= k < |ids| ==> ids[k] in ids;
    assert |ids| > 0 ==> n >= 1 by {
      if |ids| > 0 { assert -n <= e.positions[ids[0]].left < n; }
    }
    e.(stalled := Assign(e.stalled, ids, Pair(false, false)),
       occupied := seq(n, t requires 0 <= t < n => e.occupied[t] && !Vacated(e, ids, t)),
       positions := Assign(e.positions, ids, Pair(NoSite, NoSite)))
  }

  /** The state changes `update_states` applies once births and deaths are
      known: born LEFs enter the bound state, dead ones the unbound state
      (the later assignment wins), and the dead are cleared from the arrays. */
  function Settle(x: Extruder, births: seq<nat>, deaths: seq<nat>, unbound: int, bound: int): (r: Extruder)
    requires Shaped(x)
    requires forall k :: 0 <= k < |deaths| ==> deaths[k] < |x.states|
    ensures Shaped(r) && SameShape(x, r)
    ensures forall i: nat :: i < |x.states| ==>
      r.states[i] == (if i in deaths then unbound else if i in births then bound else x.states[i])
    ensures forall i: nat :: i < |x.states| ==>
      if i in deaths then r.positions[i] == Pair(NoSite, NoSite) && r.stalled[i] == Pair(false, false)
      else r.positions[i] == x.positions[i] && r.stalled[i] == x.stalled[i]
    ensures forall t :: 0 <= t < |x.occupied| ==> (r.occupied[t] <==> x.occupied[t] && !Vacated(x, deaths, t))
  {
    var y := x.(states := Assign(Assign(x.states, births, bound), deaths, unbound));
    UpdateLefArrays(y, deaths)
  }

  /** Births only move LEFs in the unbound state, so the death selection
      made after the births reads the pre-birth state of every bound LEF. */
  lemma DeathsSeePreBirth(e: Extruder, unbound: int, bound: int, choice: seq<int>,
                          birthDraws: seq<real>, stagger: seq<real>, deathDraws: seq<real>)
    requires BirthReady(e, choice, birthDraws, stagger)
    requires |deathDraws| == |e.states|
    requires unbound != bound
    requires LefBirth(e, unbound, choice, birthDraws, stagger).Ok?
    ensures var b := LefBirth(e, unbound, choice, birthDraws, stagger).value;
      DeathIds(b.ext, bound, deathDraws) == DeathIds(e, bound, deathDraws)
  {
    var b := LefBirth(e, unbound, choice, birthDraws, stagger).value;
    BirthLeavesOthers(e, unbound, choice, birthDraws, stagger);
    DeathIdsSeeBound(e, b.ext, bound, deathDraws);
  }

  /** Both selections read the pre-step states, so with distinct ids no LEF
      is both born and dead in one `update_states`. */
  lemma BirthsMissDeaths(e: Extruder, unbound: int, bound: int, choice: seq<int>,
                         birthDraws: seq<real>, stagger: seq<real>, deathDraws: seq<real>)
    requires BirthReady(e, choice, birthDraws, stagger)
    requires |deathDraws| == |e.states|
    requires unbound != bound
    requires LefBirth(e, unbound, choice, birthDraws, stagger).Ok?
    ensures var b := LefBirth(e, unbound, choice, birthDraws, stagger).value;
      forall i: nat :: !(i in b.ids && i in DeathIds(b.ext, bound, deathDraws))
  {
    var b := LefBirth(e, unbound, choice, birthDraws, stagger).value;
    BirthLeavesOthers(e, unbound, choice, birthDraws, stagger);
    var deaths := DeathIds(b.ext, bound, deathDraws);
    forall i: nat
      ensures !(i in b.ids && i in deaths)
    {
      if i in deaths {
        assert i < |e.states| && b.ext.states[i] == bound;
      }
    }
  }

  /** `lef_birth` touches only LEFs in the unbound state. */
  lemma BirthLeavesOthers(e: Extruder, unbound: int, choice: seq<int>, draws: seq<real>, stagger: seq<real>)
    requires BirthReady(e, choice, draws, stagger)
    requires LefBirth(e, unbound, choice, draws, stagger).Ok?
    ensures var b := LefBirth(e, unbound, choice, draws, stagger).value;
      && Shaped(b.ext) && b.ext.states == e.states && b.ext.stalled == e.stalled
      && forall i: nat :: i < |e.states| && e.states[i] != unbound ==>
           i !in b.ids && b.ext.positions[i] == e.positions[i]
  {
  }

  /** `update_states`: births are selected, then deaths (on the state the
      births left), then born LEFs enter the bound state, dead ones the
      unbound state, and the dead are cleared from the arrays. */
  function UpdateStates(e: Extruder, unbound: int, bound: int, choice: seq<int>,
                        birthDraws: seq<real>, stagger: seq<real>, deathDraws: seq<real>)
    : (r: Result<Update>)
    requires BirthReady(e, choice, birthDraws, stagger)
    requires |deathDraws| == |e.states|
    ensures r.Err? <==> BirthFails(e, unbound, choice, birthDraws)
    ensures r.Err? ==> r.error == BirthError(e)
    ensures r.Ok? ==>
      var x, births, deaths := r.value.ext, r.value.births, r.value.deaths;
      && Shaped(x) && SameShape(e, x)
      && (forall i: nat :: i in births <==>
            i < |e.states| && e.states[i] == unbound && birthDraws[i] < e.birthProb[choice[i]])
      && (forall i: nat :: i < |e.states| ==>
            x.states[i] == (if i in deaths then unbound else if i in births then bound else e.states[i]))
  {
    var born :- LefBirth(e, unbound, choice, birthDraws, stagger);
    var deaths := DeathIds(born.ext, bound, deathDraws);
    assert forall k :: 0 <= k < |deaths| ==> deaths[k] in deaths;
    Ok(Update(Settle(born.ext, born.ids, deaths, unbound, bound), born.ids, deaths))
  }

  /** What `update_states` does to the dead and to the LEFs it leaves alone:
      deaths are judged on the pre-step anchors, so with distinct state ids
      they never meet births; the dead are parked unbound at `-1` with no
      stall, and every LEF neither born nor dead keeps its anchors and flags. */
  lemma UpdateStatesRule(e: Extruder, unbound: int, bound: int, choice: seq<int>,
                         birthDraws: seq<real>, stagger: seq<real>, deathDraws: seq<real>)
    requires BirthReady(e, choice, birthDraws, stagger)
    requires |deathDraws| == |e.states|
    requires unbound != bound
    requires UpdateStates(e, unbound, bound, choice, birthDraws, stagger, deathDraws).Ok?
    ensures var u := UpdateStates(e, unbound, bound, choice, birthDraws, stagger, deathDraws).value;
      && (forall i: nat :: i in u.deaths <==>
            && i < |e.states|
            && e.states[i] == bound
            && (|| deathDraws[i] < AnchorDeathProb(e, e.stalled[i].left, e.positions[i].left)
                || deathDraws[i] < AnchorDeathProb(e, e.stalled[i].right, e.positions[i].right)))
      && (forall i: nat :: !(i in u.births && i in u.deaths))
      && (forall i: nat :: i < |e.states| && i in u.deaths ==>
            u.ext.positions[i] == Pair(NoSite, NoSite) && u.ext.stalled[i] == Pair(false, false))
      && (forall i: nat :: i < |e.states| && i !in u.deaths && i !in u.births ==>
            u.ext.positions[i] == e.positions[i] && u.ext.stalled[i] == e.stalled[i])
  {
    DeathsSeePreBirth(e, unbound, bound, choice, birthDraws, stagger, deathDraws);
    BirthsMissDeaths(e, unbound, bound, choice, birthDraws, stagger, deathDraws);
  }

  /** Clearing the dead keeps the invariant when the dead, and the born,
      sit inside the lattice and everyone else already satisfies it. */
  lemma SettleKeepsInv(x: Extruder, births: seq<nat>, deaths: seq<nat>)
    requires Shaped(x) && Walled(x.occupied)
    requires forall k :: 0 <= k < |deaths| ==> deaths[k] < |x.states|
    requires forall i :: 0 <= i < |x.states| && (i in births || i in deaths) ==>
      Interior(x.positions[i], |x.occupied|)
    requires forall i :: 0 <= i < |x.states| && i !in births && i !in deaths ==>
      || (x.states[i] == Unbound && x.positions[i] == Pair(NoSite, NoSite)
          && x.stalled[i] == Pair(false, false))
      || (x.states[i] == Bound && Interior(x.positions[i], |x.occupied|))
    ensures Inv(Settle(x, births, deaths, Unbound, Bound))
  {
    var n := |x.occupied|;
    forall k | 0 <= k < |deaths|
      ensures Interior(x.positions[deaths[k]], n)
    {
      assert deaths[k] in deaths;
    }
    assert !Vacated(x, deaths, 0) && !Vacated(x, deaths, n - 1);
  }

  /** On a lattice with occupied boundary sites, every newborn's anchors
      lie strictly inside it: both were free before the birth. */
  lemma NewbornsInterior(e: Extruder, choice: seq<int>, ids: seq<nat>, stagger: seq<real>)
    requires PlaceReady(e, choice, ids, stagger)
    requires IsSample(choice, e.occupied, |e.states|)
    requires Walled(e.occupied)
    ensures forall k :: 0 <= k < |ids| ==>
      Interior(PlaceBorn(e, choice, ids, stagger)[ids[k]], |e.occupied|)
  {
    var n := |e.occupied|;
    var positions := PlaceBorn(e, choice, ids, stagger);
    NewbornsOnFreeSites(e, choice, ids, stagger);
    forall k | 0 <= k < |ids|
      ensures Interior(positions[ids[k]], n)
    {
      var p := positions[ids[k]];
      assert p.left != 0 && p.right != n - 1;
    }
  }

  /** `lef_birth` only marks sites occupied, so the boundary sites stay
      occupied. */
  lemma BirthKeepsWalls(e: Extruder, choice: seq<int>, draws: seq<real>, stagger: seq<real>)
    requires Walled(e.occupied)
    requires BirthReady(e, choice, draws, stagger)
    requires LefBirth(e, Unbound, choice, draws, stagger).Ok?
    ensures Walled(LefBirth(e, Unbound, choice, draws, stagger).value.ext.occupied)
  {
    var b := LefBirth(e, Unbound, choice, draws, stagger).value;
    var n := |e.occupied|;
    assert b.ext.occupied == MarkBorn(e, choice, b.ids, stagger);
    assert e.occupied[0] && e.occupied[n - 1];
  }

  /** `NewbornsInterior` applied to `lef_birth`: on a lattice with occupied
      boundary sites every newborn sits inside the lattice. */
  lemma BirthNewbornsInterior(e: Extruder, choice: seq<int>, draws: seq<real>, stagger: seq<real>)
    requires Walled(e.occupied)
    requires BirthReady(e, choice, draws, stagger)
    requires LefBirth(e, Unbound, choice, draws, stagger).Ok?
    ensures var b := LefBirth(e, Unbound, choice, draws, stagger).value;
      forall i :: 0 <= i < |e.states| && i in b.ids ==> Interior(b.ext.positions[i], |e.occupied|)
  {
    var b := LefBirth(e, Unbound, choice, draws, stagger).value;
    var positions := PlaceBorn(e, choice, b.ids, stagger);
    assert b.ext.positions == positions;
    NewbornsInterior(e, choice, b.ids, stagger);
    forall i | 0 <= i < |e.states| && i in b.ids
      ensures Interior(positions[i], |e.occupied|)
    {
      var k :| 0 <= k < |b.ids| && b.ids[k] == i;
    }
  }

  /** The container `update_states` returns is the birth outcome with the
      later states assigned and the dead cleared. */
  lemma UpdateStatesUnfold(e: Extruder, unbound: int, bound: int, choice: seq<int>,
                           birthDraws: seq<real>, stagger: seq<real>, deathDraws: seq<real>)
    requires BirthReady(e, choice, birthDraws, stagger)
    requires |deathDraws| == |e.states|
    requires UpdateStates(e, unbound, bound, choice, birthDraws, stagger, deathDraws).Ok?
    ensures LefBirth(e, unbound, choice, birthDraws, stagger).Ok?
    ensures var born := LefBirth(e, unbound, choice, birthDraws, stagger).value;
      var deaths := DeathIds(born.ext, bound, deathDraws);
      && (forall k :: 0 <= k < |deaths| ==> deaths[k] < |born.ext.states|)
      && UpdateStates(e, unbound, bound, choice, birthDraws, stagger, deathDraws).value.ext
         == Settle(born.ext, born.ids, deaths, unbound, bound)
  {
    var born := LefBirth(e, unbound, choice, birthDraws, stagger).value;
    var deaths := DeathIds(born.ext, bound, deathDraws);
    assert forall k :: 0 <= k < |deaths| ==> deaths[k] in deaths;
  }

  /** Clearing the dead after a birth keeps the invariant: the born sit
      inside the lattice, everyone else kept their anchors, and the dead were
      bound, so inside the lattice too. */
  lemma SettleAfterBirthKeepsInv(e: Extruder, x: Extruder, births: seq<nat>, deaths: seq<nat>)
    requires Inv(e)
    requires Shaped(x) && Walled(x.occupied) && |x.occupied| == |e.occupied|
    requires x.states == e.states && x.stalled == e.stalled
    requires forall i :: 0 <= i < |x.states| && i in births ==> Interior(x.positions[i], |x.occupied|)
    requires forall i :: 0 <= i < |x.states| && i !in births ==> x.positions[i] == e.positions[i]
    requires forall k :: 0 <= k < |deaths| ==> deaths[k] < |x.states| && x.states[deaths[k]] == Bound
    ensures Inv(Settle(x, births, deaths, Unbound, Bound))
  {
    forall i | 0 <= i < |x.states| && i in deaths
      ensures Interior(x.positions[i], |x.occupied|)
    {
      var k :| 0 <= k < |deaths| && deaths[k] == i;
    }
    SettleKeepsInv(x, births, deaths);
  }

  /** Birth followed by clearing the dead keeps the invariant (default ids). */
  lemma BirthSettleKeepsInv(e: Extruder, choice: seq<int>, birthDraws: seq<real>,
                            stagger: seq<real>, deathDraws: seq<real>)
    requires Inv(e)
    requires BirthReady(e, choice, birthDraws, stagger)
    requires |deathDraws| == |e.states|
    requires LefBirth(e, Unbound, choice, birthDraws, stagger).Ok?
    ensures var born := LefBirth(e, Unbound, choice, birthDraws, stagger).value;
      Inv(Settle(born.ext, born.ids, DeathIds(born.ext, Bound, deathDraws), Unbound, Bound))
  {
    var born := LefBirth(e, Unbound, choice, birthDraws, stagger).value;
    var x := born.ext;
    var deaths := DeathIds(x, Bound, deathDraws);
    BirthKeepsWalls(e, choice, birthDraws, stagger);
    BirthNewbornsInterior(e, choice, birthDraws, stagger);
    BirthLeavesOthers(e, Unbound, choice, birthDraws, stagger);
    assert forall i :: 0 <= i < |x.states| && i !in born.ids ==> x.positions[i] == e.positions[i];
    SettleAfterBirthKeepsInv(e, x, born.ids, deaths);
  }

  /** With the default ids, `update_states` keeps the invariant: a newborn
      lands on a site that was free, hence interior, and staggers only onto
      a free site, hence never onto the last one; the dead were bound inside
      the lattice, so freeing their sites never frees a boundary site. */
  lemma UpdateStatesKeepsInv(e: Extruder, choice: seq<int>, birthDraws: seq<real>,
                             stagger: seq<real>, deathDraws: seq<real>)
    requires Inv(e)
    requires BirthReady(e, choice, birthDraws, stagger)
    requires |deathDraws| == |e.states|
    requires UpdateStates(e, Unbound, Bound, choice, birthDraws, stagger, deathDraws).Ok?
    ensures Inv(UpdateStates(e, Unbound, Bound, choice, birthDraws, stagger, deathDraws).value.ext)
  {
    UpdateStatesUnfold(e, Unbound, Bound, choice, birthDraws, stagger, deathDraws);
    BirthSettleKeepsInv(e, choice, birthDraws, stagger, deathDraws);
  }

  /** With the active state being the bound state, a `lef_step` pass keeps
      the invariant: bound anchors are interior, so every index the pass
      reads is valid, and it only moves anchors onto free sites. */
  lemma LefStepKeepsInv(e: Extruder, probLeft: seq<real>, probRight: seq<real>, draws: seq<StepDraw>)
    requires Inv(e)
    requires |probLeft| == |e.occupied| && |probRight| == |e.occupied| && |draws| == |e.states|
    ensures PassReady(e, Active, probLeft, probRight, draws)
    ensures Inv(LefStepUpTo(e, Active, probLeft, probRight, draws, |e.states|))
  {
    LefStepContained(e, Active, probLeft, probRight, draws, |e.states|);
  }

  // ---------------------------------------------------------------------------
  // step, steps

  /** A run: the engine and the barrier engine it consults. */
  datatype Simulation = Simulation(ext: Extruder, barrier: DynamicBoundary.Boundary)

  /** Every random input one `step` consumes, in stage order: the barrier's
      draws, the birth sample and draws, the death draws, and the `lef_step`
      draws together with the barrier's stall probabilities. */
  datatype StepInput = StepInput(
    barrierDraws: DynamicBoundary.Draws,
    choice: seq<int>, birthDraws: seq<real>, stagger: seq<real>, deathDraws: seq<real>,
    probLeft: seq<real>, probRight: seq<real>, moves: seq<StepDraw>)

  /** The invariant of a run: the engine invariant, a barrier on the same
      lattice whose stall flags agree with its states. */
  predicate SimInv(s: Simulation) {
    && Inv(s.ext)
    && DynamicBoundary.Shaped(s.barrier)
    && DynamicBoundary.Consistent(s.barrier)
    && s.barrier.LatticeSize() == |s.ext.occupied|
  }

  /** The inputs fit the state: one draw per site or per LEF, and `choice`
      is a numpy sample whenever one can be drawn (the barrier step does not
      change the occupancy the sample is drawn from). */
  predicate StepFits(s: Simulation, d: StepInput)
    requires SimInv(s)
  {
    && DynamicBoundary.DrawsFit(s.barrier, d.barrierDraws)
    && |d.birthDraws| == |s.ext.states| && |d.stagger| == |s.ext.states|
    && |d.deathDraws| == |s.ext.states| && |d.moves| == |s.ext.states|
    && |d.probLeft| == |s.ext.occupied| && |d.probRight| == |s.ext.occupied|
    && (|FreeSites(s.ext.occupied)| >= |s.ext.states| ==> IsSample(d.choice, s.ext.occupied, |s.ext.states|))
  }

  /** The barrier stage of `step` only clears LEF stall flags, so it keeps
      the engine invariant. */
  lemma BarrierKeepsInv(s: Simulation, d: DynamicBoundary.Draws)
    requires SimInv(s) && DynamicBoundary.DrawsFit(s.barrier, d)
    ensures var r := DynamicBoundary.Step(s.barrier, s.ext.positions, s.ext.stalled,
                                          DynamicBoundary.UnboundId, DynamicBoundary.BoundId, d);
      && Inv(s.ext.(stalled := r.1))
      && SimInv(Simulation(s.ext.(stalled := r.1), r.0))
  {
    DynamicBoundary.StepKeepsConsistent(s.barrier, s.ext.positions, s.ext.stalled, d);
  }

  /** With the last site occupied no LEF is ever offered it, so the only
      way a birth fails is a sample larger than the free sites. */
  lemma WalledBirthFails(e: Extruder, unbound: int, choice: seq<int>, draws: seq<real>)
    requires Shaped(e) && |draws| == |e.states| && Walled(e.occupied)
    ensures BirthFails(e, unbound, choice, draws) <==> |FreeSites(e.occupied)| < |e.states|
  {
    if IsSample(choice, e.occupied, |e.states|) {
      forall i | 0 <= i < |e.states|
        ensures choice[i] != |e.occupied| - 1
      {
        assert !e.occupied[choice[i]];
      }
    }
  }

  /** `step` with the default ids: the barrier step, then `update_states`,
      then a `lef_step` pass over the bound LEFs. Fails only when the birth
      sample cannot be drawn; otherwise the run invariant holds again. */
  function Step(s: Simulation, d: StepInput): (r: Result<Simulation>)
    requires SimInv(s) && StepFits(s, d)
    ensures r.Err? <==> |FreeSites(s.ext.occupied)| < |s.ext.states|
    ensures r.Ok? ==> SimInv(r.value) && SameShape(s.ext, r.value.ext)
  {
    var (barrier, stalled) := DynamicBoundary.Step(s.barrier, s.ext.positions, s.ext.stalled,
                                                   DynamicBoundary.UnboundId, DynamicBoundary.BoundId,
                                                   d.barrierDraws);
    BarrierKeepsInv(s, d.barrierDraws);
    var e := s.ext.(stalled := stalled);
    WalledBirthFails(e, Unbound, d.choice, d.birthDraws);
    var u :- UpdateStates(e, Unbound, Bound, d.choice, d.birthDraws, d.stagger, d.deathDraws);
    UpdateStatesKeepsInv(e, d.choice, d.birthDraws, d.stagger, d.deathDraws);
    LefStepKeepsInv(u.ext, d.probLeft, d.probRight, d.moves);
    Ok(Simulation(LefStepUpTo(u.ext, Active, d.probLeft, d.probRight, d.moves, |u.ext.states|), barrier))
  }

  /** Each input of the list fits the state the previous steps reach. */
  predicate Runnable(s: Simulation, ds: seq<StepInput>)
    requires SimInv(s)
    decreases |ds|
  {
    |ds| == 0 ||
      (StepFits(s, ds[0]) && (Step(s, ds[0]).Ok? ==> Runnable(Step(s, ds[0]).value, ds[1..])))
  }

  /** `steps(N)`: `step` once per input, in order, stopping at the first failure. */
  function Steps(s: Simulation, ds: seq<StepInput>): (r: Result<Simulation>)
    requires SimInv(s) && Runnable(s, ds)
    ensures r.Ok? ==> SimInv(r.value) && SameShape(s.ext, r.value.ext)
    decreases |ds|
  {
    if |ds| == 0 then Ok(s)
    else
      var t :- Step(s, ds[0]);
      Steps(t, ds[1..])
  }

  /** Running the inputs `a + b` is running `a`, then `b` from where `a`
      stopped: `steps` is exactly one `step` per input, in order. */
  lemma {:induction false} StepsAppend(s: Simulation, a: seq<StepInput>, b: seq<StepInput>)
    requires SimInv(s) && Runnable(s, a + b)
    ensures Runnable(s, a)
    ensures Steps(s, a).Err? ==> Steps(s, a + b) == Steps(s, a)
    ensures Steps(s, a).Ok? ==>
      && Runnable(Steps(s, a).value, b)
      && Steps(s, a + b) == Steps(Steps(s, a).value, b)
    decreases |a|
  {
    if |a| == 0 {
      assert a + b == b;
    } else {
      assert (a + b)[0] == a[0];
      assert (a + b)[1..] == a[1..] + b;
      if Step(s, a[0]).Ok? {
        StepsAppend(Step(s, a[0]).value, a[1..], b);
      }
    }
  }
}
