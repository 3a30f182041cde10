/**
 Dynamic barriers (CTCF-like sites): every lattice site carries a left-facing
 and a right-facing barrier state, `-1` where there is no barrier, otherwise
 the unbound or bound state of a birth/death process. A bound barrier stalls
 LEF anchors; when a barrier unbinds, every LEF anchor stalled on it is
 released in the same step.
 */
module DynamicBoundary {
  import opened Lattice

  /** Default state ids of `step` (and the id the stall arrays are derived from). */
  const UnboundId: int := 0
  const BoundId: int := 1
  /** Barrier state of a site that has no barrier at all. */
  const NoBarrier: int := -1

  datatype Boundary = Boundary(
    birthProb: seq<real>,
    deathProb: seq<real>,
    statesLeft: seq<int>,
    statesRight: seq<int>,
    stallLeft: seq<bool>,
    stallRight: seq<bool>)
  {
    function LatticeSize(): nat { |stallLeft| }
  }

  predicate Shaped(b: Boundary) {
    var n := |b.stallLeft|;
    && |b.stallRight| == n
    && |b.statesLeft| == n
    && |b.statesRight| == n
    && |b.birthProb| == n
    && |b.deathProb| == n
  }

  /** A site stalls in a direction exactly when its barrier facing that
      direction is bound. */
  predicate Consistent(b: Boundary)
    requires Shaped(b)
  {
    forall s :: 0 <= s < |b.stallLeft| ==>
      && b.stallLeft[s] == (b.statesLeft[s] == BoundId)
      && b.stallRight[s] == (b.statesRight[s] == BoundId)
  }

  /** The stall arrays the constructor derives from given barrier states. */
  function FromStates(birthProb: seq<real>, deathProb: seq<real>,
                      statesLeft: seq<int>, statesRight: seq<int>): (b: Boundary)
    requires |deathProb| == |birthProb| && |statesLeft| == |birthProb| && |statesRight| == |birthProb|
    ensures Shaped(b) && Consistent(b)
    ensures b.statesLeft == statesLeft && b.statesRight == statesRight
    ensures b.birthProb == birthProb && b.deathProb == deathProb
  {
    Boundary(birthProb, deathProb, statesLeft, statesRight,
             seq(|statesLeft|, s requires 0 <= s < |statesLeft| => statesLeft[s] == BoundId),
             seq(|statesRight|, s requires 0 <= s < |statesRight| => statesRight[s] == BoundId))
  }

  /** The four per-site draw vectors one barrier step consumes. */
  datatype Draws = Draws(birthLeft: seq<real>, birthRight: seq<real>,
                         deathLeft: seq<real>, deathRight: seq<real>)

  predicate DrawsFit(b: Boundary, d: Draws) {
    var n := |b.stallLeft|;
    |d.birthLeft| == n && |d.birthRight| == n && |d.deathLeft| == n && |d.deathRight| == n
  }

  /** Sites selected in the left-facing and in the right-facing arrays. */
  datatype SiteIds = SiteIds(left: seq<nat>, right: seq<nat>)

  /** `birth`: in each direction, the sites whose barrier is in the unbound
      state and whose draw is below the site's birth probability; their
      stall flags are raised and nothing else changes. */
  function Birth(b: Boundary, unbound: int, drawsLeft: seq<real>, drawsRight: seq<real>)
    : (r: (Boundary, SiteIds))
    requires Shaped(b)
    requires |drawsLeft| == b.LatticeSize() && |drawsRight| == b.LatticeSize()
    ensures Shaped(r.0)
    ensures r.0.statesLeft == b.statesLeft && r.0.statesRight == b.statesRight
    ensures r.0.birthProb == b.birthProb && r.0.deathProb == b.deathProb
    ensures Increasing(r.1.left) && Increasing(r.1.right)
    ensures forall s: nat :: s in r.1.left <==>
      s < b.LatticeSize() && drawsLeft[s] < b.birthProb[s] && b.statesLeft[s] == unbound
    ensures forall s: nat :: s in r.1.right <==>
      s < b.LatticeSize() && drawsRight[s] < b.birthProb[s] && b.statesRight[s] == unbound
    ensures forall s :: 0 <= s < b.LatticeSize() ==>
      && r.0.stallLeft[s] == (b.stallLeft[s] || s in r.1.left)
      && r.0.stallRight[s] == (b.stallRight[s] || s in r.1.right)
  {
    var n := b.LatticeSize();
    var idsLeft := FlatNonzero(seq(n, s requires 0 <= s < n =>
      drawsLeft[s] < b.birthProb[s] && b.statesLeft[s] == unbound));
    var idsRight := FlatNonzero(seq(n, s requires 0 <= s < n =>
      drawsRight[s] < b.birthProb[s] && b.statesRight[s] == unbound));
    (b.(stallLeft := Assign(b.stallLeft, idsLeft, true),
        stallRight := Assign(b.stallRight, idsRight, true)),
     SiteIds(idsLeft, idsRight))
  }

  /** `death`: in each direction, the sites whose barrier is in the bound
      state and whose draw is below the site's death probability; their
      stall flags are lowered and nothing else changes. */
  function Death(b: Boundary, bound: int, drawsLeft: seq<real>, drawsRight: seq<real>)
    : (r: (Boundary, SiteIds))
    requires Shaped(b)
    requires |drawsLeft| == b.LatticeSize() && |drawsRight| == b.LatticeSize()
    ensures Shaped(r.0)
    ensures r.0.statesLeft == b.statesLeft && r.0.statesRight == b.statesRight
    ensures r.0.birthProb == b.birthProb && r.0.deathProb == b.deathProb
    ensures Increasing(r.1.left) && Increasing(r.1.right)
    ensures forall s: nat :: s in r.1.left <==>
      s < b.LatticeSize() && drawsLeft[s] < b.deathProb[s] && b.statesLeft[s] == bound
    ensures forall s: nat :: s in r.1.right <==>
      s < b.LatticeSize() && drawsRight[s] < b.deathProb[s] && b.statesRight[s] == bound
    ensures forall s :: 0 <= s < b.LatticeSize() ==>
      && r.0.stallLeft[s] == (b.stallLeft[s] && s !in r.1.left)
      && r.0.stallRight[s] == (b.stallRight[s] && s !in r.1.right)
  {
    var n := b.LatticeSize();
    var idsLeft := FlatNonzero(seq(n, s requires 0 <= s < n =>
      drawsLeft[s] < b.deathProb[s] && b.statesLeft[s] == bound));
    var idsRight := FlatNonzero(seq(n, s requires 0 <= s < n =>
      drawsRight[s] < b.deathProb[s] && b.statesRight[s] == bound));
    (b.(stallLeft := Assign(b.stallLeft, idsLeft, false),
        stallRight := Assign(b.stallRight, idsRight, false)),
     SiteIds(idsLeft, idsRight))
  }

  /** Site `s`'s left-facing barrier is born in this step. */
  predicate BornLeft(b: Boundary, d: Draws, unbound: int, s: nat)
    requires Shaped(b) && DrawsFit(b, d) && s < b.LatticeSize()
  {
    d.birthLeft[s] < b.birthProb[s] && b.statesLeft[s] == unbound
  }

  predicate BornRight(b: Boundary, d: Draws, unbound: int, s: nat)
    requires Shaped(b) && DrawsFit(b, d) && s < b.LatticeSize()
  {
    d.birthRight[s] < b.birthProb[s] && b.statesRight[s] == unbound
  }

  /** Site `s`'s left-facing barrier dies in this step. */
  predicate DiesLeft(b: Boundary, d: Draws, bound: int, s: nat)
    requires Shaped(b) && DrawsFit(b, d) && s < b.LatticeSize()
  {
    d.deathLeft[s] < b.deathProb[s] && b.statesLeft[s] == bound
  }

  predicate DiesRight(b: Boundary, d: Draws, bound: int, s: nat)
    requires Shaped(b) && DrawsFit(b, d) && s < b.LatticeSize()
  {
    d.deathRight[s] < b.deathProb[s] && b.statesRight[s] == bound
  }

  /** An anchor at `site` (possibly `-1`) sits on a left-facing barrier that dies. */
  predicate ReleasedLeft(b: Boundary, d: Draws, bound: int, site: int)
    requires Shaped(b) && DrawsFit(b, d)
  {
    0 <= site < b.LatticeSize() && DiesLeft(b, d, bound, site)
  }

  predicate ReleasedRight(b: Boundary, d: Draws, bound: int, site: int)
    requires Shaped(b) && DrawsFit(b, d)
  {
    0 <= site < b.LatticeSize() && DiesRight(b, d, bound, site)
  }

  /** One barrier step: births and deaths are both selected from the states
      before the step, births are applied first and deaths second, and the
      stall flags of LEF anchors sitting on a barrier that died are cleared.
      Returns the new barrier and the new LEF stall flags. */
  function Step(b: Boundary, positions: seq<Pair<int>>, stalled: seq<Pair<bool>>,
                unbound: int, bound: int, d: Draws): (r: (Boundary, seq<Pair<bool>>))
    requires Shaped(b) && DrawsFit(b, d)
    requires |stalled| == |positions|
    ensures Shaped(r.0) && r.0.LatticeSize() == b.LatticeSize()
    ensures r.0.birthProb == b.birthProb && r.0.deathProb == b.deathProb
    // born barriers become bound, dead ones unbound, every other site keeps its state
    ensures forall s: nat :: s < b.LatticeSize() ==>
      && r.0.statesLeft[s] == (if DiesLeft(b, d, bound, s) then unbound
                               else if BornLeft(b, d, unbound, s) then bound
                               else b.statesLeft[s])
      && r.0.statesRight[s] == (if DiesRight(b, d, bound, s) then unbound
                                else if BornRight(b, d, unbound, s) then bound
                                else b.statesRight[s])
    // both selections read the pre-step states, so distinct ids never select a site twice
    ensures unbound != bound ==> forall s: nat :: s < b.LatticeSize() ==>
      && !(BornLeft(b, d, unbound, s) && DiesLeft(b, d, bound, s))
      && !(BornRight(b, d, unbound, s) && DiesRight(b, d, bound, s))
    ensures forall s: nat :: s < b.LatticeSize() ==>
      && r.0.stallLeft[s] == (if DiesLeft(b, d, bound, s) then false
                              else if BornLeft(b, d, unbound, s) then true
                              else b.stallLeft[s])
      && r.0.stallRight[s] == (if DiesRight(b, d, bound, s) then false
                               else if BornRight(b, d, unbound, s) then true
                               else b.stallRight[s])
    // LEF anchors on a dying barrier are released; no flag is ever raised
    ensures |r.1| == |stalled|
    ensures forall i :: 0 <= i < |stalled| ==>
      && r.1[i].left == (stalled[i].left && !ReleasedLeft(b, d, bound, positions[i].left))
      && r.1[i].right == (stalled[i].right && !ReleasedRight(b, d, bound, positions[i].right))
  {
    var (b1, born) := Birth(b, unbound, d.birthLeft, d.birthRight);
    var (b2, dead) := Death(b1, bound, d.deathLeft, d.deathRight);
    var b3 := b2.(statesLeft := Assign(Assign(b2.statesLeft, born.left, bound), dead.left, unbound),
                  statesRight := Assign(Assign(b2.statesRight, born.right, bound), dead.right, unbound));
    var lefStalled := seq(|stalled|, i requires 0 <= i < |stalled| =>
      Pair(stalled[i].left && !(positions[i].left >= 0 && positions[i].left as nat in dead.left),
           stalled[i].right && !(positions[i].right >= 0 && positions[i].right as nat in dead.right)));
    (b3, lefStalled)
  }

  /** With the default ids, a step keeps every stall flag equal to "the
      barrier there is bound", and never touches a site without a barrier. */
  lemma StepKeepsConsistent(b: Boundary, positions: seq<Pair<int>>, stalled: seq<Pair<bool>>, d: Draws)
    requires Shaped(b) && DrawsFit(b, d) && |stalled| == |positions|
    requires Consistent(b)
    ensures var r := Step(b, positions, stalled, UnboundId, BoundId, d);
      && Consistent(r.0)
      && (forall s :: 0 <= s < b.LatticeSize() && b.statesLeft[s] == NoBarrier ==>
            r.0.statesLeft[s] == NoBarrier && !r.0.stallLeft[s])
      && (forall s :: 0 <= s < b.LatticeSize() && b.statesRight[s] == NoBarrier ==>
            r.0.statesRight[s] == NoBarrier && !r.0.stallRight[s])
  {
  }

  /** A barrier without turnover (all birth and death rates zero) is static:
      its step changes neither the barrier nor any LEF stall flag. */
  lemma StaticWithoutTurnover(b: Boundary, positions: seq<Pair<int>>, stalled: seq<Pair<bool>>,
                              unbound: int, bound: int, d: Draws)
    requires Shaped(b) && DrawsFit(b, d) && |stalled| == |positions|
    requires forall s :: 0 <= s < b.LatticeSize() ==> b.birthProb[s] <= 0.0 && b.deathProb[s] <= 0.0
    requires forall s :: 0 <= s < b.LatticeSize() ==>
      d.birthLeft[s] >= 0.0 && d.birthRight[s] >= 0.0 && d.deathLeft[s] >= 0.0 && d.deathRight[s] >= 0.0
    ensures Step(b, positions, stalled, unbound, bound, d) == (b, stalled)
  {
    var r := Step(b, positions, stalled, unbound, bound, d);
    assert r.0.statesLeft == b.statesLeft;
    assert r.0.statesRight == b.statesRight;
    assert r.0.stallLeft == b.stallLeft;
    assert r.0.stallRight == b.stallRight;
    assert r.1 == stalled;
  }
}
