/**
  What the four samplers compute, as functions of their inputs.

  A sampler call is a sequence of sweeps; each sweep shuffles the interior index
  list and then updates the sites one after the other, in the shuffled order,
  on the live lattice (a site sees the values its neighbours received earlier
  in the same sweep). The uniform draws come from one stream `draws`, read at a
  cursor that advances by one per `random.random()` call.

  The four source functions are the four combinations of an update rule
  (`Gibbs`: heat-bath draw, `Metropolis`: flip proposal) with a topology
  (`Iso`: `Gibbs`, `Metropolis`; `Aniso`: `AGibbs`, `AMetropolis`).
*/
module Sampling {
  import opened Options
  import opened Lattice
  import opened Shuffling
  import opened Anneal
  import opened Energy

  datatype Rule = Gibbs | Metropolis

  /**
    Where the fidelity term reads the observed pixel: `Fixed(y)` for a separate
    observed image, `Live` when `Yobs` is the lattice itself (the default when no
    observation is passed), so that `yk` is the current spin of the site.
  */
  datatype Obs = Live | Fixed(y: seq<int>)

  /** Everything a sampler call holds fixed while it runs. */
  datatype Sampler = Sampler(rule: Rule, params: Params, grid: Grid, obs: Obs,
                             draws: nat -> real, fns: Transcendentals)
  {
    ghost predicate Valid() {
      fns.Valid() && (obs.Fixed? ==> |obs.y| == grid.Size())
    }
  }

  /** The lattice and the number of uniform draws consumed so far. */
  datatype State = State(spins: seq<int>, cursor: nat)

  /** The observed pixel at site `k` when the lattice currently holds `s`. */
  function ObsAt(obs: Obs, s: seq<int>, k: int): int
    requires 0 <= k < |s| && (obs.Fixed? ==> |obs.y| == |s|)
  {
    match obs
    case Live => s[k]
    case Fixed(y) => y[k]
  }

  /** The observation a sampler sees: `Live` when `Yobs` is omitted or is the lattice array itself. */
  ghost function ObsOf(yobs: Option<array<int>>, sample: array<int>): Obs
    reads if yobs.Some? then {yobs.value} else {}
  {
    if yobs.None? || yobs.value == sample then Live else Fixed(yobs.value[..])
  }

  /**
    The Metropolis energy changes accepted without a draw: `dE <= 0` in the
    isotropic sampler, only `Delta_E < 0` in the anisotropic one.
  */
  predicate AcceptsOutright(p: Params, dE: real) {
    match p
    case Iso(_, _, _) => dE <= 0.0
    case Aniso(_, _, _, _, _, _) => dE < 0.0
  }

  /** The update of one interior site `k` at temperature `t`. It writes cell `k` and no other. */
  function Step(sp: Sampler, st: State, k: int, t: real): (r: State)
    requires sp.Valid() && |st.spins| == sp.grid.Size()
    requires sp.grid.IsInterior(k) && t != 0.0
    ensures |r.spins| == |st.spins|
    ensures r.spins == st.spins[k := r.spins[k]]
    ensures st.cursor <= r.cursor <= st.cursor + 1
  {
    NeighboursInBounds(sp.grid, k);
    var n := NeighboursAt(st.spins, k, sp.grid.W());
    var yk := ObsAt(sp.obs, st.spins, k);
    match sp.rule
    case Gibbs =>
      var spin := if sp.draws(st.cursor) < PPlus(Field(sp.params, n, yk), t, sp.fns) then 1 else -1;
      State(st.spins[k := spin], st.cursor + 1)
    case Metropolis =>
      var s := st.spins[k];
      var dE := SiteEnergy(sp.params, n, yk, -s) - SiteEnergy(sp.params, n, yk, s);
      if AcceptsOutright(sp.params, dE) then
        State(st.spins[k := -s], st.cursor)
      else if sp.draws(st.cursor) < Acceptance(dE, t, sp.fns) then
        State(st.spins[k := -s], st.cursor + 1)
      else
        State(st.spins, st.cursor + 1)
  }

  /** One sweep: the sites of `order` updated one after the other on the live lattice. */
  function Sweep(sp: Sampler, st: State, order: seq<int>, t: real): (r: State)
    requires sp.Valid() && |st.spins| == sp.grid.Size() && t != 0.0
    requires forall k :: k in order ==> sp.grid.IsInterior(k)
    ensures |r.spins| == |st.spins|
    ensures st.cursor <= r.cursor <= st.cursor + |order|
    ensures forall i :: 0 <= i < |st.spins| && i !in order ==> r.spins[i] == st.spins[i]
    decreases |order|
  {
    if order == [] then st
    else Sweep(sp, Step(sp, st, order[0], t), order[1..], t)
  }

  /**
    Sweeps `sweep .. |shuffles| - 1` of a sampler call: each shuffles the index
    list `idx` in place with its own Fisher-Yates choices, then sweeps in the new
    order at the schedule's temperature. The border is never written.
  */
  function Run(sp: Sampler, sch: Schedule, shuffles: seq<seq<nat>>, st: State, idx: seq<int>, sweep: nat): (r: State)
    requires sp.Valid() && |st.spins| == sp.grid.Size()
    requires forall k :: k in idx ==> sp.grid.IsInterior(k)
    requires sweep <= |shuffles|
    requires forall s :: sweep <= s < |shuffles| ==> ValidSwaps(shuffles[s], |idx|)
    requires sweep < |shuffles| ==> sch.Positive()
    ensures |r.spins| == |st.spins|
    ensures forall i :: 0 <= i < |st.spins| && !sp.grid.IsInterior(i) ==> r.spins[i] == st.spins[i]
    decreases |shuffles| - sweep
  {
    if sweep == |shuffles| then st
    else
      var order := FisherYates(idx, shuffles[sweep]);
      FisherYatesPermutes(idx, shuffles[sweep]);
      assert forall k :: k in order ==> k in multiset(idx);
      var t := Temperature(sch, sweep, |shuffles|, sp.fns);
      Run(sp, sch, shuffles, Sweep(sp, st, order, t), order, sweep + 1)
  }

  /**
    One sweep of a call in terms of the next: shuffling keeps every listed site
    interior, and `Run` from sweep `sweep` is `Run` from `sweep + 1` after that
    sweep's shuffle and site updates.
  */
  lemma RunUnfold(sp: Sampler, sch: Schedule, shuffles: seq<seq<nat>>, st: State, idx: seq<int>, sweep: nat)
    requires sp.Valid() && |st.spins| == sp.grid.Size()
    requires forall k :: k in idx ==> sp.grid.IsInterior(k)
    requires sweep < |shuffles|
    requires forall s :: sweep <= s < |shuffles| ==> ValidSwaps(shuffles[s], |idx|)
    requires sch.Positive()
    ensures |FisherYates(idx, shuffles[sweep])| == |idx|
    ensures forall k :: k in FisherYates(idx, shuffles[sweep]) ==> sp.grid.IsInterior(k)
    ensures Run(sp, sch, shuffles, st, idx, sweep)
         == Run(sp, sch, shuffles,
                Sweep(sp, st, FisherYates(idx, shuffles[sweep]), Temperature(sch, sweep, |shuffles|, sp.fns)),
                FisherYates(idx, shuffles[sweep]), sweep + 1)
  {
    FisherYatesPermutes(idx, shuffles[sweep]);
    assert forall k :: k in FisherYates(idx, shuffles[sweep]) ==> k in multiset(idx);
  }

  // ---------------------------------------------------------------- zero sweeps

  /** With no sweep to run the lattice is returned untouched and no draw is consumed. */
  lemma ZeroSweeps(sp: Sampler, sch: Schedule, st: State, idx: seq<int>)
    requires sp.Valid() && |st.spins| == sp.grid.Size()
    requires forall k :: k in idx ==> sp.grid.IsInterior(k)
    ensures Run(sp, sch, [], st, idx, 0) == st
  {
  }

  // ---------------------------------------------------------------- the single-site rules

  /**
    A Gibbs step sets the site to `+1` when the draw falls below
    `p_plus = 1 / (1 + exp(2 h / T))` of the live local field `h`, and to `-1`
    otherwise; it always consumes exactly one draw.
  */
  lemma GibbsStepValue(sp: Sampler, st: State, k: int, t: real)
    requires sp.Valid() && |st.spins| == sp.grid.Size()
    requires sp.grid.IsInterior(k) && t != 0.0
    requires sp.rule == Gibbs
    ensures 0 <= k - sp.grid.W() - 1 && k + sp.grid.W() + 1 < |st.spins|
    ensures var h := Field(sp.params, NeighboursAt(st.spins, k, sp.grid.W()), ObsAt(sp.obs, st.spins, k));
      && Step(sp, st, k, t).spins[k] == (if sp.draws(st.cursor) < PPlus(h, t, sp.fns) then 1 else -1)
      && Step(sp, st, k, t).cursor == st.cursor + 1
  {
    NeighboursInBounds(sp.grid, k);
  }

  /**
    A Metropolis step either flips the site or leaves it alone; it never writes
    any other value.
  */
  lemma MetropolisFlipOrKeep(sp: Sampler, st: State, k: int, t: real)
    requires sp.Valid() && |st.spins| == sp.grid.Size()
    requires sp.grid.IsInterior(k) && t != 0.0
    requires sp.rule == Metropolis
    ensures Step(sp, st, k, t).spins == st.spins
         || Step(sp, st, k, t).spins == st.spins[k := -st.spins[k]]
  {
  }

  /**
    The Metropolis decision in terms of the site's current energy `E`: since
    `dE = -2 E`, the isotropic sampler flips without a draw exactly when `E >= 0`
    and the anisotropic one exactly when `E > 0`. Otherwise one draw is consumed
    and the site flips exactly when it falls below `exp(-dE / T)`.
  */
  lemma MetropolisDecision(sp: Sampler, st: State, k: int, t: real)
    requires sp.Valid() && |st.spins| == sp.grid.Size()
    requires sp.grid.IsInterior(k) && t != 0.0
    requires sp.rule == Metropolis
    requires st.spins[k] == 1 || st.spins[k] == -1
    ensures 0 <= k - sp.grid.W() - 1 && k + sp.grid.W() + 1 < |st.spins|
    ensures
      var s := st.spins[k];
      var n := NeighboursAt(st.spins, k, sp.grid.W());
      var yk := ObsAt(sp.obs, st.spins, k);
      var e := SiteEnergy(sp.params, n, yk, s);
      var r := Step(sp, st, k, t);
      && (AcceptsOutright(sp.params, -2.0 * e) <==> (if sp.params.Iso? then e >= 0.0 else e > 0.0))
      && (AcceptsOutright(sp.params, -2.0 * e) ==> r == State(st.spins[k := -s], st.cursor))
      && (!AcceptsOutright(sp.params, -2.0 * e) ==>
            r.cursor == st.cursor + 1
            && (r.spins[k] == -s <==> sp.draws(st.cursor) < Acceptance(-2.0 * e, t, sp.fns))
            && (r.spins[k] == s <==> !(sp.draws(st.cursor) < Acceptance(-2.0 * e, t, sp.fns))))
  {
    NeighboursInBounds(sp.grid, k);
    var s := st.spins[k];
    var n := NeighboursAt(st.spins, k, sp.grid.W());
    var yk := ObsAt(sp.obs, st.spins, k);
    FlipDelta(sp.params, n, yk, s);
  }

  /**
    The two tie-breaks give the same lattice: at `Delta_E = 0` the anisotropic
    sampler draws, but `exp(0) = 1` and a draw of `random.random()` is below 1,
    so it flips the site as the isotropic rule does. The only difference is one
    extra draw consumed from the stream.
  */
  lemma TieBreakFlips(sp: Sampler, st: State, k: int, t: real)
    requires sp.Valid() && |st.spins| == sp.grid.Size()
    requires sp.grid.IsInterior(k) && t > 0.0
    requires sp.rule == Metropolis && sp.params.Aniso?
    requires 0.0 <= sp.draws(st.cursor) < 1.0
    requires 0 <= k - sp.grid.W() - 1 && k + sp.grid.W() + 1 < |st.spins|
    requires
      var n := NeighboursAt(st.spins, k, sp.grid.W());
      var yk := ObsAt(sp.obs, st.spins, k);
      SiteEnergy(sp.params, n, yk, -st.spins[k]) == SiteEnergy(sp.params, n, yk, st.spins[k])
    ensures Step(sp, st, k, t) == State(st.spins[k := -st.spins[k]], st.cursor + 1)
  {
    AcceptanceInUnit(0.0, t, sp.fns);
  }

  // ---------------------------------------------------------------- observation fallback

  /**
    With `lam = 0` the observation plays no part: a step on the live fallback
    (no `Yobs` given) and a step against any fixed observation give the same
    state, so the fallback is the prior-only sampler when `lam = 0`.
  */
  lemma FidelityOffStep(sp: Sampler, st: State, k: int, t: real, y: seq<int>)
    requires sp.fns.Valid() && |st.spins| == sp.grid.Size() && |y| == sp.grid.Size()
    requires sp.grid.IsInterior(k) && t != 0.0
    requires sp.params.lam == 0.0
    ensures Step(sp.(obs := Live), st, k, t) == Step(sp.(obs := Fixed(y)), st, k, t)
  {
    NeighboursInBounds(sp.grid, k);
    var n := NeighboursAt(st.spins, k, sp.grid.W());
    assert Field(sp.params, n, st.spins[k]) == Field(sp.params, n, y[k]);
    var s := st.spins[k];
    assert SiteEnergy(sp.params, n, st.spins[k], s) == SiteEnergy(sp.params, n, y[k], s);
    assert SiteEnergy(sp.params, n, st.spins[k], -s) == SiteEnergy(sp.params, n, y[k], -s);
  }

  /**
    Conversely, with `lam != 0` the live fallback is not the prior-only
    sampler: wherever the site's current spin differs from the observed pixel,
    the local field read through the fallback differs from the one read
    against the fixed observation.
  */
  lemma FidelityOnField(sp: Sampler, st: State, k: int, y: seq<int>)
    requires |st.spins| == sp.grid.Size() && |y| == sp.grid.Size()
    requires sp.grid.IsInterior(k)
    requires sp.params.lam != 0.0 && y[k] != st.spins[k]
    ensures 0 <= k - sp.grid.W() - 1 && k + sp.grid.W() + 1 < |st.spins|
    ensures Field(sp.params, NeighboursAt(st.spins, k, sp.grid.W()), ObsAt(Live, st.spins, k))
         != Field(sp.params, NeighboursAt(st.spins, k, sp.grid.W()), ObsAt(Fixed(y), st.spins, k))
  {
    NeighboursInBounds(sp.grid, k);
  }

  /** The same over a whole sweep, in any visiting order. */
  lemma {:induction false} FidelityOffSweep(sp: Sampler, st: State, order: seq<int>, t: real, y: seq<int>)
    requires sp.fns.Valid() && |st.spins| == sp.grid.Size() && |y| == sp.grid.Size() && t != 0.0
    requires forall k :: k in order ==> sp.grid.IsInterior(k)
    requires sp.params.lam == 0.0
    ensures Sweep(sp.(obs := Live), st, order, t) == Sweep(sp.(obs := Fixed(y)), st, order, t)
    decreases |order|
  {
    if order != [] {
      FidelityOffStep(sp, st, order[0], t, y);
      FidelityOffSweep(sp, Step(sp.(obs := Live), st, order[0], t), order[1..], t, y);
    }
  }

  /** And over a whole sampler call. */
  lemma {:induction false} FidelityOffRun(sp: Sampler, sch: Schedule, shuffles: seq<seq<nat>>, st: State, idx: seq<int>,
                                          sweep: nat, y: seq<int>)
    requires sp.fns.Valid() && |st.spins| == sp.grid.Size() && |y| == sp.grid.Size()
    requires forall k :: k in idx ==> sp.grid.IsInterior(k)
    requires sweep <= |shuffles|
    requires forall s :: sweep <= s < |shuffles| ==> ValidSwaps(shuffles[s], |idx|)
    requires sweep < |shuffles| ==> sch.Positive()
    requires sp.params.lam == 0.0
    ensures Run(sp.(obs := Live), sch, shuffles, st, idx, sweep) == Run(sp.(obs := Fixed(y)), sch, shuffles, st, idx, sweep)
    decreases |shuffles| - sweep
  {
    if sweep < |shuffles| {
      var order := FisherYates(idx, shuffles[sweep]);
      RunUnfold(sp.(obs := Live), sch, shuffles, st, idx, sweep);
      RunUnfold(sp.(obs := Fixed(y)), sch, shuffles, st, idx, sweep);
      var t := Temperature(sch, sweep, |shuffles|, sp.fns);
      FidelityOffSweep(sp, st, order, t, y);
      FidelityOffRun(sp, sch, shuffles, Sweep(sp.(obs := Live), st, order, t), order, sweep + 1, y);
    }
  }

  // ---------------------------------------------------------------- spins stay in {-1, +1}

  /** Every interior cell holds a spin `-1` or `+1`. */
  predicate UnitInterior(g: Grid, s: seq<int>) {
    forall k :: 0 <= k < |s| && g.IsInterior(k) ==> s[k] == 1 || s[k] == -1
  }

  lemma StepKeepsUnit(sp: Sampler, st: State, k: int, t: real)
    requires sp.Valid() && |st.spins| == sp.grid.Size()
    requires sp.grid.IsInterior(k) && t != 0.0
    requires UnitInterior(sp.grid, st.spins)
    ensures UnitInterior(sp.grid, Step(sp, st, k, t).spins)
  {
  }

  lemma {:induction false} SweepKeepsUnit(sp: Sampler, st: State, order: seq<int>, t: real)
    requires sp.Valid() && |st.spins| == sp.grid.Size() && t != 0.0
    requires forall k :: k in order ==> sp.grid.IsInterior(k)
    requires UnitInterior(sp.grid, st.spins)
    ensures UnitInterior(sp.grid, Sweep(sp, st, order, t).spins)
    decreases |order|
  {
    if order != [] {
      StepKeepsUnit(sp, st, order[0], t);
      SweepKeepsUnit(sp, Step(sp, st, order[0], t), order[1..], t);
    }
  }

  /** Both rules keep a lattice of spins `-1`/`+1` a lattice of spins, over any number of sweeps. */
  lemma {:induction false} RunKeepsUnit(sp: Sampler, sch: Schedule, shuffles: seq<seq<nat>>, st: State, idx: seq<int>, sweep: nat)
    requires sp.Valid() && |st.spins| == sp.grid.Size()
    requires forall k :: k in idx ==> sp.grid.IsInterior(k)
    requires sweep <= |shuffles|
    requires forall s :: sweep <= s < |shuffles| ==> ValidSwaps(shuffles[s], |idx|)
    requires sweep < |shuffles| ==> sch.Positive()
    requires UnitInterior(sp.grid, st.spins)
    ensures UnitInterior(sp.grid, Run(sp, sch, shuffles, st, idx, sweep).spins)
    decreases |shuffles| - sweep
  {
    if sweep < |shuffles| {
      var order := FisherYates(idx, shuffles[sweep]);
      FisherYatesPermutes(idx, shuffles[sweep]);
      assert forall k :: k in order ==> k in multiset(idx);
      var t := Temperature(sch, sweep, |shuffles|, sp.fns);
      SweepKeepsUnit(sp, st, order, t);
      RunKeepsUnit(sp, sch, shuffles, Sweep(sp, st, order, t), order, sweep + 1);
    }
  }

  /** A whole call that starts from a lattice of spins ends with a crop made of spins. */
  lemma RunCropUnit(sp: Sampler, sch: Schedule, shuffles: seq<seq<nat>>, st: State, idx: seq<int>)
    requires sp.Valid() && |st.spins| == sp.grid.Size()
    requires forall k :: k in idx ==> sp.grid.IsInterior(k)
    requires forall s :: 0 <= s < |shuffles| ==> ValidSwaps(shuffles[s], |idx|)
    requires 0 < |shuffles| ==> sch.Positive()
    ensures UnitInterior(sp.grid, st.spins) ==>
              forall r, c :: 0 <= r < sp.grid.height && 0 <= c < sp.grid.width ==>
                CropOf(Run(sp, sch, shuffles, st, idx, 0).spins, sp.grid)[r][c] in {-1, 1}
  {
    if UnitInterior(sp.grid, st.spins) {
      RunKeepsUnit(sp, sch, shuffles, st, idx, 0);
      CropOfUnit(sp.grid, Run(sp, sch, shuffles, st, idx, 0).spins);
    }
  }

  /** A Gibbs sweep leaves every site it visited holding `-1` or `+1`, whatever it held before. */
  lemma {:induction false} GibbsSweepSetsVisited(sp: Sampler, st: State, order: seq<int>, t: real)
    requires sp.Valid() && |st.spins| == sp.grid.Size() && t != 0.0
    requires forall k :: k in order ==> sp.grid.IsInterior(k)
    requires sp.rule == Gibbs
    ensures forall k :: k in order ==> Sweep(sp, st, order, t).spins[k] in {-1, 1}
    decreases |order|
  {
    if order != [] {
      var next := Step(sp, st, order[0], t);
      GibbsSweepSetsVisited(sp, next, order[1..], t);
      forall k | k in order ensures Sweep(sp, st, order, t).spins[k] in {-1, 1} {
        if k !in order[1..] {
          assert k == order[0];
        }
      }
    }
  }

  /**
    After at least one Gibbs sweep over a permutation of all interior sites,
    every interior cell holds `-1` or `+1`, whatever the input lattice held.
  */
  lemma GibbsRunSetsAll(sp: Sampler, sch: Schedule, shuffles: seq<seq<nat>>, st: State, idx: seq<int>, sweep: nat)
    requires sp.Valid() && |st.spins| == sp.grid.Size()
    requires multiset(idx) == multiset(Interior(sp.grid))
    requires sweep < |shuffles|
    requires forall s :: sweep <= s < |shuffles| ==> ValidSwaps(shuffles[s], |idx|)
    requires sch.Positive()
    requires sp.rule == Gibbs
    ensures forall k :: k in idx ==> sp.grid.IsInterior(k)
    ensures UnitInterior(sp.grid, Run(sp, sch, shuffles, st, idx, sweep).spins)
  {
    assert forall k :: k in idx ==> k in multiset(Interior(sp.grid));
    var order := FisherYates(idx, shuffles[sweep]);
    FisherYatesPermutes(idx, shuffles[sweep]);
    assert forall k :: k in order ==> k in multiset(idx);
    var t := Temperature(sch, sweep, |shuffles|, sp.fns);
    var next := Sweep(sp, st, order, t);
    GibbsSweepSetsVisited(sp, st, order, t);
    forall k | 0 <= k < |next.spins| && sp.grid.IsInterior(k) ensures next.spins[k] == 1 || next.spins[k] == -1 {
      assert k in multiset(Interior(sp.grid));
      assert k in order;
    }
    RunKeepsUnit(sp, sch, shuffles, next, order, sweep + 1);
  }

  /** The crop of a lattice of spins is an image of spins. */
  lemma CropOfUnit(g: Grid, s: seq<int>)
    requires |s| == g.Size() && UnitInterior(g, s)
    ensures forall r, c :: 0 <= r < g.height && 0 <= c < g.width ==> CropOf(s, g)[r][c] in {-1, 1}
  {
  }
}
