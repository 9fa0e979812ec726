/**
  The anisotropic samplers: eight neighbours, one coupling per direction
  (`betaH` left/right, `betaV` up/down, `betaD1` the `\` diagonal, `betaD2` the
  `/` diagonal).

  Same structure as the isotropic samplers: observation fallback, annealing
  set-up, interior index list, `itera` in-place shuffles and in-place sweeps,
  final crop. The Metropolis variant accepts outright only when the energy
  strictly decreases. Each method is proved to compute exactly `Run` of the
  matching sampler.
*/
module Anisotropic {
  import opened Options
  import opened Lattice
  import opened Shuffling
  import opened Anneal
  import opened Energy
  import opened Sampling

  /** Heat-bath (Gibbs) sampling with the anisotropic 8-neighbour local field. */
  method AGibbs(sample: array<int>, height: nat, width: nat, itera: nat,
                alpha: real, betaH: real, betaV: real, betaD1: real, betaD2: real, T: real,
                yobs: Option<array<int>>, lam: real, anneal: bool, T0: Option<real>, Tf: Option<real>,
                shuffles: seq<seq<nat>>, draws: nat -> real, fns: Transcendentals)
    returns (out: seq<seq<int>>)
    requires sample.Length == Grid(height, width).Size()
    requires yobs.Some? ==> yobs.value.Length == sample.Length
    requires |shuffles| == itera
    requires forall s :: 0 <= s < itera ==> ValidSwaps(shuffles[s], height * width)
    requires fns.Valid()
    requires itera > 0 ==> Setup(T, anneal, T0, Tf).Positive()
    modifies sample
    ensures sample[..] == Run(Sampler(Rule.Gibbs, Aniso(alpha, betaH, betaV, betaD1, betaD2, lam), Grid(height, width),
                                      old(ObsOf(yobs, sample)), draws, fns),
                              Setup(T, anneal, T0, Tf), shuffles, State(old(sample[..]), 0), Interior(Grid(height, width)), 0).spins
    ensures out == CropOf(sample[..], Grid(height, width))
    ensures forall i :: 0 <= i < sample.Length && !Grid(height, width).IsInterior(i) ==> sample[i] == old(sample[i])
    ensures itera == 0 ==> sample[..] == old(sample[..]) && out == CropOf(old(sample[..]), Grid(height, width))
    ensures itera > 0 ==> forall r, c :: 0 <= r < height && 0 <= c < width ==> out[r][c] in {-1, 1}
  {
    var g := Grid(height, width);
    var y := if yobs.Some? then yobs.value else sample;
    ghost var obs := ObsOf(yobs, sample);
    var sch := Setup(T, anneal, T0, Tf);
    var indices := ComputeIndices(g);
    var p := Aniso(alpha, betaH, betaV, betaD1, betaD2, lam);
    ghost var sp := Sampler(Rule.Gibbs, p, g, obs, draws, fns);
    AGibbsSweeps(sample, y, g, obs, indices, p, sch, itera, shuffles, draws, fns);
    out := Crop(sample, g);
    if itera > 0 {
      GibbsRunSetsAll(sp, sch, shuffles, State(old(sample[..]), 0), Interior(g), 0);
      CropOfUnit(g, sample[..]);
    }
  }

  /** Metropolis sampling with single-spin flip proposals and the anisotropic energy. */
  method AMetropolis(sample: array<int>, height: nat, width: nat, itera: nat,
                     alpha: real, betaH: real, betaV: real, betaD1: real, betaD2: real, T: real,
                     yobs: Option<array<int>>, lam: real, anneal: bool, T0: Option<real>, Tf: Option<real>,
                     shuffles: seq<seq<nat>>, draws: nat -> real, fns: Transcendentals)
    returns (out: seq<seq<int>>)
    requires sample.Length == Grid(height, width).Size()
    requires yobs.Some? ==> yobs.value.Length == sample.Length
    requires |shuffles| == itera
    requires forall s :: 0 <= s < itera ==> ValidSwaps(shuffles[s], height * width)
    requires fns.Valid()
    requires itera > 0 ==> Setup(T, anneal, T0, Tf).Positive()
    modifies sample
    ensures sample[..] == Run(Sampler(Rule.Metropolis, Aniso(alpha, betaH, betaV, betaD1, betaD2, lam), Grid(height, width),
                                      old(ObsOf(yobs, sample)), draws, fns),
                              Setup(T, anneal, T0, Tf), shuffles, State(old(sample[..]), 0), Interior(Grid(height, width)), 0).spins
    ensures out == CropOf(sample[..], Grid(height, width))
    ensures forall i :: 0 <= i < sample.Length && !Grid(height, width).IsInterior(i) ==> sample[i] == old(sample[i])
    ensures itera == 0 ==> sample[..] == old(sample[..]) && out == CropOf(old(sample[..]), Grid(height, width))
    ensures UnitInterior(Grid(height, width), old(sample[..])) ==>
              forall r, c :: 0 <= r < height && 0 <= c < width ==> out[r][c] in {-1, 1}
  {
    var g := Grid(height, width);
    var y := if yobs.Some? then yobs.value else sample;
    ghost var obs := ObsOf(yobs, sample);
    var sch := Setup(T, anneal, T0, Tf);
    var indices := ComputeIndices(g);
    var p := Aniso(alpha, betaH, betaV, betaD1, betaD2, lam);
    ghost var sp := Sampler(Rule.Metropolis, p, g, obs, draws, fns);
    AMetropolisSweeps(sample, y, g, obs, indices, p, sch, itera, shuffles, draws, fns);
    out := Crop(sample, g);
    RunCropUnit(sp, sch, shuffles, State(old(sample[..]), 0), Interior(g));
  }

  /** One anisotropic Gibbs site update: the live 8-neighbour field, `p_plus`, one draw, the write of `sample[k]`. */
  method AGibbsSite(sample: array<int>, y: array<int>, g: Grid, ghost obs: Obs, k: int,
                    p: Params, tEff: real, draws: nat -> real, fns: Transcendentals, cursor: nat)
    returns (next: nat)
    requires sample.Length == g.Size() && y.Length == sample.Length
    requires obs == if y == sample then Live else Fixed(y[..])
    requires g.IsInterior(k) && p.Aniso? && tEff != 0.0 && fns.Valid()
    modifies sample
    ensures State(sample[..], next) == Step(Sampler(Rule.Gibbs, p, g, obs, draws, fns), State(old(sample[..]), cursor), k, tEff)
  {
    var W := g.W();
    NeighboursInBounds(g, k);
    var yk := y[k];
    var energy := p.alpha
                  + p.betaH * (sample[k - 1] + sample[k + 1]) as real
                  + p.betaV * (sample[k - W] + sample[k + W]) as real
                  + p.betaD1 * (sample[k - W - 1] + sample[k + W + 1]) as real
                  + p.betaD2 * (sample[k - W + 1] + sample[k + W - 1]) as real
                  - p.lam * yk as real;
    var pPlus := 1.0 / (1.0 + fns.exp(2.0 * energy / tEff));
    ghost var n := NeighboursAt(sample[..], k, W);
    assert energy == Field(p, n, ObsAt(obs, sample[..], k));
    assert pPlus == PPlus(energy, tEff, fns);
    sample[k] := if draws(cursor) < pPlus then 1 else -1;
    next := cursor + 1;
  }

  /**
    One anisotropic Metropolis site update: the energies of the current and the
    candidate spin on the live lattice, then acceptance outright only when
    `Delta_E < 0`, and otherwise through one draw against `exp(-Delta_E / T)`.
  */
  method AMetropolisSite(sample: array<int>, y: array<int>, g: Grid, ghost obs: Obs, k: int,
                         p: Params, tEff: real, draws: nat -> real, fns: Transcendentals, cursor: nat)
    returns (next: nat)
    requires sample.Length == g.Size() && y.Length == sample.Length
    requires obs == if y == sample then Live else Fixed(y[..])
    requires g.IsInterior(k) && p.Aniso? && tEff != 0.0 && fns.Valid()
    modifies sample
    ensures State(sample[..], next) == Step(Sampler(Rule.Metropolis, p, g, obs, draws, fns), State(old(sample[..]), cursor), k, tEff)
  {
    var W := g.W();
    NeighboursInBounds(g, k);
    var current := sample[k];
    var candidate := -current;
    var yk := y[k];
    var eOld := p.alpha * current as real
                + p.betaH * (current * sample[k - 1] + current * sample[k + 1]) as real
                + p.betaV * (current * sample[k - W] + current * sample[k + W]) as real
                + p.betaD1 * (current * sample[k - W - 1] + current * sample[k + W + 1]) as real
                + p.betaD2 * (current * sample[k - W + 1] + current * sample[k + W - 1]) as real
                - p.lam * yk as real * current as real;
    var eNew := p.alpha * candidate as real
                + p.betaH * (candidate * sample[k - 1] + candidate * sample[k + 1]) as real
                + p.betaV * (candidate * sample[k - W] + candidate * sample[k + W]) as real
                + p.betaD1 * (candidate * sample[k - W - 1] + candidate * sample[k + W + 1]) as real
                + p.betaD2 * (candidate * sample[k - W + 1] + candidate * sample[k + W - 1]) as real
                - p.lam * yk as real * candidate as real;
    var deltaE := eNew - eOld;
    ghost var n := NeighboursAt(sample[..], k, W);
    assert eOld == SiteEnergy(p, n, ObsAt(obs, sample[..], k), current);
    assert eNew == SiteEnergy(p, n, ObsAt(obs, sample[..], k), candidate);
    assert AcceptsOutright(p, deltaE) <==> deltaE < 0.0;
    next := cursor;
    if deltaE < 0.0 {
      sample[k] := candidate;
    } else {
      if draws(cursor) < fns.exp(-deltaE / tEff) {
        sample[k] := candidate;
      }
      next := cursor + 1;
    }
  }

  /** One anisotropic Gibbs sweep: the sites of `indices`, in order, each updated in place by `AGibbsSite`. */
  method AGibbsSweep(sample: array<int>, y: array<int>, g: Grid, ghost obs: Obs, indices: array<int>,
                     p: Params, tEff: real, draws: nat -> real, fns: Transcendentals, cursor: nat)
    returns (next: nat)
    requires sample.Length == g.Size() && y.Length == sample.Length && indices != sample
    requires obs == if y == sample then Live else Fixed(y[..])
    requires forall k :: k in indices[..] ==> g.IsInterior(k)
    requires p.Aniso? && tEff != 0.0 && fns.Valid()
    modifies sample
    ensures State(sample[..], next)
         == Sweep(Sampler(Rule.Gibbs, p, g, obs, draws, fns), State(old(sample[..]), cursor), indices[..], tEff)
  {
    ghost var sp := Sampler(Rule.Gibbs, p, g, obs, draws, fns);
    next := cursor;
    for pos := 0 to indices.Length
      invariant Sweep(sp, State(sample[..], next), indices[pos..], tEff)
             == Sweep(sp, State(old(sample[..]), cursor), indices[..], tEff)
    {
      var k := indices[pos];
      assert k in indices[..];
      next := AGibbsSite(sample, y, g, obs, k, p, tEff, draws, fns, next);
      assert indices[pos..][1..] == indices[pos + 1..];
    }
  }

  /** One anisotropic Metropolis sweep: the sites of `indices`, in order, each updated in place by `AMetropolisSite`. */
  method AMetropolisSweep(sample: array<int>, y: array<int>, g: Grid, ghost obs: Obs, indices: array<int>,
                          p: Params, tEff: real, draws: nat -> real, fns: Transcendentals, cursor: nat)
    returns (next: nat)
    requires sample.Length == g.Size() && y.Length == sample.Length && indices != sample
    requires obs == if y == sample then Live else Fixed(y[..])
    requires forall k :: k in indices[..] ==> g.IsInterior(k)
    requires p.Aniso? && tEff != 0.0 && fns.Valid()
    modifies sample
    ensures State(sample[..], next)
         == Sweep(Sampler(Rule.Metropolis, p, g, obs, draws, fns), State(old(sample[..]), cursor), indices[..], tEff)
  {
    ghost var sp := Sampler(Rule.Metropolis, p, g, obs, draws, fns);
    next := cursor;
    for pos := 0 to indices.Length
      invariant Sweep(sp, State(sample[..], next), indices[pos..], tEff)
             == Sweep(sp, State(old(sample[..]), cursor), indices[..], tEff)
    {
      var k := indices[pos];
      assert k in indices[..];
      next := AMetropolisSite(sample, y, g, obs, k, p, tEff, draws, fns, next);
      assert indices[pos..][1..] == indices[pos + 1..];
    }
  }

  /**
    The sweep loop of `AGibbs`: each of the `itera` sweeps computes its
    temperature, shuffles `indices` in place and runs `AGibbsSweep`.
  */
  method AGibbsSweeps(sample: array<int>, y: array<int>, g: Grid, ghost obs: Obs, indices: array<int>,
                 p: Params, sch: Schedule, itera: nat,
                 shuffles: seq<seq<nat>>, draws: nat -> real, fns: Transcendentals)
    requires sample.Length == g.Size() && y.Length == sample.Length
    requires indices != sample && indices != y
    requires obs == if y == sample then Live else Fixed(y[..])
    requires forall k :: k in indices[..] ==> g.IsInterior(k)
    requires |shuffles| == itera && forall s :: 0 <= s < itera ==> ValidSwaps(shuffles[s], indices.Length)
    requires p.Aniso? && fns.Valid() && (itera > 0 ==> sch.Positive())
    modifies sample, indices
    ensures sample[..] == Run(Sampler(Rule.Gibbs, p, g, obs, draws, fns), sch, shuffles,
                              State(old(sample[..]), 0), old(indices[..]), 0).spins
  {
    ghost var sp := Sampler(Rule.Gibbs, p, g, obs, draws, fns);
    ghost var whole := Run(sp, sch, shuffles, State(sample[..], 0), indices[..], 0);
    var cursor: nat := 0;
    for sweep := 0 to itera
      invariant forall k :: k in indices[..] ==> g.IsInterior(k)
      invariant obs == if y == sample then Live else Fixed(y[..])
      invariant Run(sp, sch, shuffles, State(sample[..], cursor), indices[..], sweep) == whole
    {
      cursor := AGibbsPass(sample, y, g, obs, indices, p, sch, sweep, shuffles, draws, fns, cursor);
    }
  }

  /** Sweep number `sweep` of `AGibbs`: its temperature, the in-place shuffle, then `AGibbsSweep`. */
  method AGibbsPass(sample: array<int>, y: array<int>, g: Grid, ghost obs: Obs, indices: array<int>,
                   p: Params, sch: Schedule, sweep: nat,
                   shuffles: seq<seq<nat>>, draws: nat -> real, fns: Transcendentals, cursor: nat)
    returns (next: nat)
    requires sample.Length == g.Size() && y.Length == sample.Length
    requires indices != sample && indices != y
    requires obs == if y == sample then Live else Fixed(y[..])
    requires forall k :: k in indices[..] ==> g.IsInterior(k)
    requires sweep < |shuffles| && forall s :: sweep <= s < |shuffles| ==> ValidSwaps(shuffles[s], indices.Length)
    requires p.Aniso? && fns.Valid() && sch.Positive()
    modifies sample, indices
    ensures forall k :: k in indices[..] ==> g.IsInterior(k)
    ensures Run(Sampler(Rule.Gibbs, p, g, obs, draws, fns), sch, shuffles, State(old(sample[..]), cursor), old(indices[..]), sweep)
         == Run(Sampler(Rule.Gibbs, p, g, obs, draws, fns), sch, shuffles, State(sample[..], next), indices[..], sweep + 1)
  {
    ghost var sp := Sampler(Rule.Gibbs, p, g, obs, draws, fns);
    var tEff := Temperature(sch, sweep, |shuffles|, fns);
    RunUnfold(sp, sch, shuffles, State(sample[..], cursor), indices[..], sweep);
    Shuffle(indices, shuffles[sweep]);
    next := AGibbsSweep(sample, y, g, obs, indices, p, tEff, draws, fns, cursor);
  }

  /**
    The sweep loop of `AMetropolis`: each of the `itera` sweeps computes its
    temperature, shuffles `indices` in place and runs `AMetropolisSweep`.
  */
  method AMetropolisSweeps(sample: array<int>, y: array<int>, g: Grid, ghost obs: Obs, indices: array<int>,
                 p: Params, sch: Schedule, itera: nat,
                 shuffles: seq<seq<nat>>, draws: nat -> real, fns: Transcendentals)
    requires sample.Length == g.Size() && y.Length == sample.Length
    requires indices != sample && indices != y
    requires obs == if y == sample then Live else Fixed(y[..])
    requires forall k :: k in indices[..] ==> g.IsInterior(k)
    requires |shuffles| == itera && forall s :: 0 <= s < itera ==> ValidSwaps(shuffles[s], indices.Length)
    requires p.Aniso? && fns.Valid() && (itera > 0 ==> sch.Positive())
    modifies sample, indices
    ensures sample[..] == Run(Sampler(Rule.Metropolis, p, g, obs, draws, fns), sch, shuffles,
                              State(old(sample[..]), 0), old(indices[..]), 0).spins
  {
    ghost var sp := Sampler(Rule.Metropolis, p, g, obs, draws, fns);
    ghost var whole := Run(sp, sch, shuffles, State(sample[..], 0), indices[..], 0);
    var cursor: nat := 0;
    for sweep := 0 to itera
      invariant forall k :: k in indices[..] ==> g.IsInterior(k)
      invariant obs == if y == sample then Live else Fixed(y[..])
      invariant Run(sp, sch, shuffles, State(sample[..], cursor), indices[..], sweep) == whole
    {
      cursor := AMetropolisPass(sample, y, g, obs, indices, p, sch, sweep, shuffles, draws, fns, cursor);
    }
  }

  /** Sweep number `sweep` of `AMetropolis`: its temperature, the in-place shuffle, then `AMetropolisSweep`. */
  method AMetropolisPass(sample: array<int>, y: array<int>, g: Grid, ghost obs: Obs, indices: array<int>,
                   p: Params, sch: Schedule, sweep: nat,
                   shuffles: seq<seq<nat>>, draws: nat -> real, fns: Transcendentals, cursor: nat)
    returns (next: nat)
    requires sample.Length == g.Size() && y.Length == sample.Length
    requires indices != sample && indices != y
    requires obs == if y == sample then Live else Fixed(y[..])
    requires forall k :: k in indices[..] ==> g.IsInterior(k)
    requires sweep < |shuffles| && forall s :: sweep <= s < |shuffles| ==> ValidSwaps(shuffles[s], indices.Length)
    requires p.Aniso? && fns.Valid() && sch.Positive()
    modifies sample, indices
    ensures forall k :: k in indices[..] ==> g.IsInterior(k)
    ensures Run(Sampler(Rule.Metropolis, p, g, obs, draws, fns), sch, shuffles, State(old(sample[..]), cursor), old(indices[..]), sweep)
         == Run(Sampler(Rule.Metropolis, p, g, obs, draws, fns), sch, shuffles, State(sample[..], next), indices[..], sweep + 1)
  {
    ghost var sp := Sampler(Rule.Metropolis, p, g, obs, draws, fns);
    var tEff := Temperature(sch, sweep, |shuffles|, fns);
    RunUnfold(sp, sch, shuffles, State(sample[..], cursor), indices[..], sweep);
    Shuffle(indices, shuffles[sweep]);
    next := AMetropolisSweep(sample, y, g, obs, indices, p, tEff, draws, fns, cursor);
  }
}
