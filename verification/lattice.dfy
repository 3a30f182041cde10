/**
 Shared vocabulary of the discrete-time loop-extrusion engines: the lattice of
 sites, the per-LEF state container, Python-style array indexing, and the two
 selection rules (who may be born, who dies) that both engines use.

 Randomness is never drawn here: every draw is an explicit `real` input
 (a value of `numpy.random.random()`, in [0,1)), and the result of
 `numpy.random.choice(free_sites, size=M, replace=False)` is an explicit
 sequence of distinct free sites.
 */
module Lattice {

  /** Column 0 and column 1 of the engines' M×2 arrays (positions, stall flags). */
  datatype Pair<T> = Pair(left: T, right: T)

  /** The position recorded for both anchors of an unbound LEF. */
  const NoSite: int := -1

  datatype Error =
    | SampleLargerThanPopulation  // choice without replacement of more sites than are free
    | EmptyLattice                // the constructor marks site 0 of a lattice with no sites
    | IndexOutOfRange             // the stagger check reads the site after the last one
    | MissingArgument             // a call leaves a required parameter without a value

  datatype Result<T> = Ok(value: T) | Err(error: Error) {
    predicate IsFailure() { Err? }

    function PropagateFailure<U>(): Result<U>
      requires Err?
    {
      Err(error)
    }

    function Extract(): T
      requires Ok?
    {
      value
    }
  }

  function Max(a: real, b: real): real {
    if a >= b then a else b
  }

  /** The array slot Python reads for index `k` of an array of length `n`:
      negative indices count from the end. */
  function Wrap(k: int, n: nat): (j: nat)
    requires -(n as int) <= k < n
    ensures j < n
  {
    if k < 0 then k + n else k
  }

  /** Python's `s[k]`. */
  function PyAt<T>(s: seq<T>, k: int): T
    requires -|s| <= k < |s|
  {
    s[Wrap(k, |s|)]
  }

  predicate Increasing(ids: seq<nat>) {
    forall a, b :: 0 <= a < b < |ids| ==> ids[a] < ids[b]
  }

  /** `numpy.flatnonzero`: the indices of the true entries, in increasing order. */
  function FlatNonzero(mask: seq<bool>): (ids: seq<nat>)
    ensures Increasing(ids)
    ensures forall i: nat :: i in ids <==> i < |mask| && mask[i]
  {
    if |mask| == 0 then []
    else
      var n := |mask| - 1;
      var front := FlatNonzero(mask[..n]);
      assert forall a :: 0 <= a < |front| ==> front[a] < n by {
        forall a | 0 <= a < |front| ensures front[a] < n {
          assert front[a] in front;
        }
      }
      front + (if mask[n] then [n] else [])
  }

  /** An increasing sequence of indices below `n` has at most `n` entries. */
  lemma {:induction false} IncreasingBounded(ids: seq<nat>, n: nat)
    requires Increasing(ids)
    requires forall k :: 0 <= k < |ids| ==> ids[k] < n
    ensures |ids| <= n
    ensures forall k :: 0 <= k < |ids| ==> k <= ids[k]
  {
    if |ids| > 0 {
      var m := |ids| - 1;
      var front := ids[..m];
      assert forall k :: 0 <= k < m ==> front[k] == ids[k];
      IncreasingBounded(front, n);
      if m > 0 {
        assert m - 1 <= front[m - 1] && front[m - 1] < ids[m];
      }
      assert m <= ids[m] < n;
    }
  }

  /** `sites[~occupied]`: the free sites, in increasing order. */
  function FreeSites(occupied: seq<bool>): seq<nat> {
    FlatNonzero(seq(|occupied|, s requires 0 <= s < |occupied| => !occupied[s]))
  }

  predicate Distinct<T(==)>(s: seq<T>) {
    forall a, b :: 0 <= a < b < |s| ==> s[a] != s[b]
  }

  /** `choice` is a possible value of
      `numpy.random.choice(FreeSites(occupied), size=size, replace=False)`. */
  predicate IsSample(choice: seq<int>, occupied: seq<bool>, size: nat) {
    && |choice| == size
    && Distinct(choice)
    && forall k :: 0 <= k < |choice| ==> 0 <= choice[k] < |occupied| && !occupied[choice[k]]
  }

  /** Fancy-index assignment `s[ids] = v`. */
  function Assign<T>(s: seq<T>, ids: seq<nat>, v: T): (r: seq<T>)
    ensures |r| == |s|
  {
    seq(|s|, j requires 0 <= j < |s| => if j in ids then v else s[j])
  }

  /** The position of the first occurrence of `x` in `s`. */
  function IndexOf<T(==)>(s: seq<T>, x: T): (k: nat)
    requires x in s
    ensures k < |s| && s[k] == x
    ensures forall j :: 0 <= j < k ==> s[j] != x
  {
    if s[0] == x then 0 else 1 + IndexOf(s[1..], x)
  }

  /** The LEF state container shared by both engines: per-site parameter
      arrays and occupancy, per-LEF state, anchor positions and stall flags. */
  datatype Extruder = Extruder(
    birthProb: seq<real>,
    deathProb: seq<real>,
    stalledDeathProb: seq<real>,
    pauseProb: seq<real>,
    states: seq<int>,
    positions: seq<Pair<int>>,
    occupied: seq<bool>,
    stalled: seq<Pair<bool>>)

  /** Array lengths agree, and every anchor position is a valid Python index
      of a per-site array (so `-1` is allowed and means "last site"). */
  predicate Shaped(e: Extruder) {
    var n := |e.birthProb|;
    && |e.deathProb| == n
    && |e.stalledDeathProb| == n
    && |e.pauseProb| == n
    && |e.occupied| == n
    && |e.positions| == |e.states|
    && |e.stalled| == |e.states|
    && forall i :: 0 <= i < |e.positions| ==>
         -n <= e.positions[i].left < n && -n <= e.positions[i].right < n
  }

  /** Same parameters, same LEF count: what every transition keeps. */
  predicate SameShape(e: Extruder, r: Extruder) {
    && r.birthProb == e.birthProb
    && r.deathProb == e.deathProb
    && r.stalledDeathProb == e.stalledDeathProb
    && r.pauseProb == e.pauseProb
    && |r.states| == |e.states|
    && |r.positions| == |e.positions|
    && |r.stalled| == |e.stalled|
    && |r.occupied| == |e.occupied|
  }

  /** The birth selection shared by both engines: LEF `i` is born when it is
      in the unbound state and its draw falls below the birth probability of
      the site it was offered. */
  function BirthIds(e: Extruder, unbound: int, choice: seq<int>, draws: seq<real>): (ids: seq<nat>)
    requires Shaped(e)
    requires |choice| == |e.states| && |draws| == |e.states|
    requires forall k :: 0 <= k < |choice| ==> 0 <= choice[k] < |e.birthProb|
    ensures Increasing(ids)
    ensures forall i: nat :: i in ids <==>
      i < |e.states| && e.states[i] == unbound && draws[i] < e.birthProb[choice[i]]
  {
    FlatNonzero(seq(|e.states|, i requires 0 <= i < |e.states| =>
      draws[i] < e.birthProb[choice[i]] && e.states[i] == unbound))
  }

  /** Preconditions of a birth: one draw and one stagger draw per LEF and,
      when there are enough free sites for numpy to draw from, `choice` is
      such a draw. */
  predicate BirthReady(e: Extruder, choice: seq<int>, draws: seq<real>, stagger: seq<real>) {
    && Shaped(e)
    && |draws| == |e.states| && |stagger| == |e.states|
    && (|FreeSites(e.occupied)| >= |e.states| ==> IsSample(choice, e.occupied, |e.states|))
  }

  /** Some LEF that `BirthIds` selects was offered the last site, so the
      stagger check would read the site past the end of the lattice. */
  predicate BornOnLastSite(e: Extruder, unbound: int, choice: seq<int>, draws: seq<real>)
    requires Shaped(e)
    requires |choice| == |e.states| && |draws| == |e.states|
    requires forall k :: 0 <= k < |choice| ==> 0 <= choice[k] < |e.birthProb|
  {
    exists i :: 0 <= i < |e.states| && e.states[i] == unbound && draws[i] < e.birthProb[choice[i]]
      && choice[i] == |e.occupied| - 1
  }

  /** When a birth rule fails: numpy cannot draw `M` distinct free sites,
      or a newborn's stagger check indexes past the last site. */
  predicate BirthFails(e: Extruder, unbound: int, choice: seq<int>, draws: seq<real>)
    requires Shaped(e) && |draws| == |e.states|
  {
    || |FreeSites(e.occupied)| < |e.states|
    || (IsSample(choice, e.occupied, |e.states|) && BornOnLastSite(e, unbound, choice, draws))
  }

  /** The error a failing birth rule raises: the sample first, then the index. */
  function BirthError(e: Extruder): Error {
    if |FreeSites(e.occupied)| < |e.states| then SampleLargerThanPopulation else IndexOutOfRange
  }

  /** What the placement of born LEFs needs: `ids` are distinct LEFs in
      increasing order, each offered a site below the last one. */
  predicate PlaceReady(e: Extruder, choice: seq<int>, ids: seq<nat>, stagger: seq<real>) {
    && Shaped(e)
    && |choice| == |e.states| && |stagger| == |e.states|
    && Increasing(ids) && |ids| <= |e.states|
    && (forall k :: 0 <= k < |ids| ==> ids[k] < |e.states|)
    && (forall k :: 0 <= k < |ids| ==> 0 <= choice[ids[k]] < |e.occupied| - 1)
  }

  /** The born LEFs of a birth rule, when it does not fail. */
  function BirthSelection(e: Extruder, unbound: int, choice: seq<int>, draws: seq<real>, stagger: seq<real>)
    : (ids: seq<nat>)
    requires BirthReady(e, choice, draws, stagger)
    requires IsSample(choice, e.occupied, |e.states|)
    requires !BornOnLastSite(e, unbound, choice, draws)
    ensures Increasing(ids)
    ensures forall i: nat :: i in ids <==>
      i < |e.states| && e.states[i] == unbound && draws[i] < e.birthProb[choice[i]]
    ensures PlaceReady(e, choice, ids, stagger)
  {
    var ids := BirthIds(e, unbound, choice, draws);
    assert forall k :: 0 <= k < |ids| ==> ids[k] in ids;
    IncreasingBounded(ids, |e.states|);
    ids
  }

  /** Death probability contributed by one anchor: the stalled rate if that
      anchor is stalled, the baseline rate otherwise, read at its site with
      Python indexing (so an unbound anchor at `-1` reads the last site). */
  function AnchorDeathProb(e: Extruder, stalled: bool, site: int): real
    requires Shaped(e)
    requires -|e.birthProb| <= site < |e.birthProb|
  {
    if stalled then PyAt(e.stalledDeathProb, site) else PyAt(e.deathProb, site)
  }

  /** The death selection shared by both engines: a LEF in the bound state
      dies when its draw is below the larger of its two anchors' rates. */
  function DeathIds(e: Extruder, bound: int, draws: seq<real>): (ids: seq<nat>)
    requires Shaped(e)
    requires |draws| == |e.states|
    ensures Increasing(ids)
    ensures forall k :: 0 <= k < |ids| ==> ids[k] < |e.states| && e.states[ids[k]] == bound
    ensures forall i: nat :: i in ids <==>
      && i < |e.states|
      && e.states[i] == bound
      && (|| draws[i] < AnchorDeathProb(e, e.stalled[i].left, e.positions[i].left)
          || draws[i] < AnchorDeathProb(e, e.stalled[i].right, e.positions[i].right))
  {
    var ids := FlatNonzero(seq(|e.states|, i requires 0 <= i < |e.states| =>
      var p := Max(AnchorDeathProb(e, e.stalled[i].left, e.positions[i].left),
                   AnchorDeathProb(e, e.stalled[i].right, e.positions[i].right));
      draws[i] < p && e.states[i] == bound));
    assert forall k :: 0 <= k < |ids| ==> ids[k] in ids;
    ids
  }

  /** The death selection reads only the states, anchors and stall flags of
      bound LEFs: two containers that agree on those select the same LEFs. */
  lemma DeathIdsSeeBound(e: Extruder, x: Extruder, bound: int, draws: seq<real>)
    requires Shaped(e) && Shaped(x) && |draws| == |e.states|
    requires x.deathProb == e.deathProb && x.stalledDeathProb == e.stalledDeathProb
    requires x.states == e.states
    requires forall i :: 0 <= i < |e.states| && e.states[i] == bound ==>
      x.positions[i] == e.positions[i] && x.stalled[i] == e.stalled[i]
    ensures DeathIds(x, bound, draws) == DeathIds(e, bound, draws)
  {
    var a, b := DeathIds(x, bound, draws), DeathIds(e, bound, draws);
    assert forall i: nat :: i in a <==> i in b by {
      forall i: nat ensures i in a <==> i in b {
        if i < |e.states| && e.states[i] == bound {
          assert x.positions[i] == e.positions[i] && x.stalled[i] == e.stalled[i];
        }
      }
    }
    IncreasingSame(a, b);
  }

  /** Two increasing sequences with the same members are equal. */
  lemma {:induction false} IncreasingSame(a: seq<nat>, b: seq<nat>)
    requires Increasing(a) && Increasing(b)
    requires forall i: nat :: i in a <==> i in b
    ensures a == b
  {
    assert |a| > 0 ==> a[0] in b;
    assert |b| > 0 ==> b[0] in a;
    if |a| > 0 {
      SameLast(a, b);
      var m, n := |a| - 1, |b| - 1;
      SameFront(a, b, a[..m], b[..n]);
      IncreasingSame(a[..m], b[..n]);
      assert a == a[..m] + [a[m]] && b == b[..n] + [b[n]];
    }
  }

  /** Increasing sequences with the same members end in the same element,
      their largest. */
  lemma SameLast(a: seq<nat>, b: seq<nat>)
    requires Increasing(a) && Increasing(b)
    requires forall i: nat :: i in a <==> i in b
    requires |a| > 0 && |b| > 0
    ensures a[|a| - 1] == b[|b| - 1]
  {
    var m, n := |a| - 1, |b| - 1;
    assert a[m] in a && b[n] in b;
    var p :| 0 <= p < |b| && b[p] == a[m];
    var q :| 0 <= q < |a| && a[q] == b[n];
    assert p == n;
  }

  /** Dropping the common last element keeps the members the same. */
  lemma SameFront(a: seq<nat>, b: seq<nat>, a': seq<nat>, b': seq<nat>)
    requires Increasing(a) && Increasing(b)
    requires forall i: nat :: i in a <==> i in b
    requires |a| > 0 && |b| > 0 && a[|a| - 1] == b[|b| - 1]
    requires a' == a[..|a| - 1] && b' == b[..|b| - 1]
    ensures forall i: nat :: i in a' <==> i in b'
  {
    var m, n := |a| - 1, |b| - 1;
    forall i: nat ensures i in a' <==> i in b' {
      if i in a' {
        var k :| 0 <= k < m && a'[k] == i;
        assert a[k] < a[m] && a[k] in a;
        var r :| 0 <= r < |b| && b[r] == i;
        assert r != n && b'[r] == i;
      }
      if i in b' {
        var k :| 0 <= k < n && b'[k] == i;
        assert b[k] < b[n] && b[k] in b;
        var r :| 0 <= r < |a| && a[r] == i;
        assert r != m && a'[r] == i;
      }
    }
  }

  /** Both boundary sites of the lattice are occupied. */
  predicate Walled(occupied: seq<bool>) {
    |occupied| >= 1 && occupied[0] && occupied[|occupied| - 1]
  }

  /** A bound LEF's anchors lie strictly inside the lattice, left not past right. */
  predicate Interior(p: Pair<int>, n: nat) {
    1 <= p.left <= p.right <= n - 2
  }

  /** Intermediate result of a birth rule: the new container and the born LEFs. */
  datatype Outcome = Outcome(ext: Extruder, ids: seq<nat>)

  /** Result of `update_states`: the new container, the born and the dead LEFs. */
  datatype Update = Update(ext: Extruder, births: seq<nat>, deaths: seq<nat>)
}
