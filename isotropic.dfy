/**
  The isotropic samplers: four nearest neighbours, one coupling `beta`.

  Each method is the source function step by step: the observation fallback,
  the annealing set-up, the interior index list, `itera` sweeps that shuffle the
  list in place and update `sample[k]` in place, and the final crop. The random
  permutation choices, the uniform draws and `exp`/`**` are inputs; each method
  is proved to compute exactly `Run` of the matching sampler.
*/
module Isotropic {
  import opened Options
  import opened Lattice
  import opened Shuffling
  import opened Anneal
  import opened Energy
  import opened Sampling

  /** Heat-bath (Gibbs) sampling with the isotropic local field. */
  method Gibbs(sample: array<int>, height: nat, width: nat, itera: nat,
               alpha: real, beta: real, T: real,
               yobs: Option<array<int>>, lam: real, anneal: bool, T0: Option<real>, Tf: Option<real>,
               shuffles: seq<seq<nat>>, draws: nat -> real, fns: Transcendentals)
    returns (out: seq<seq<int>>)
    requires sample.Length == Grid(height, width).Size()
    requires yobs.Some? ==> yobs.value.Length == sample.Length
    requires |shuffles| == itera
    requires forall s :: 0 <= s < itera ==> ValidSwaps(shuffles[s], height * width)
    requires fns.Valid()
    requires itera > 0 ==> Setup(T, anneal, T0, Tf).Positive()
    modifies sample
    ensures sample[..] == Run(Sampler(Rule.Gibbs, Iso(alpha, beta, lam), Grid(height, width), old(ObsOf(yobs, sample)), draws, fns),
                              Setup(T, anneal, T0, Tf), shuffles, State(old(sample[..]), 0), Interior(Grid(height, width)), 0).spins
    ensures out == CropOf(sample[..], Grid(height, width))
    ensures forall i :: 0 <= i < sample.Length && !Grid(height, width).IsInterior(i) ==> sample[i] == old(sample[i])
    ensures itera == 0 ==> sample[..] == old(sample[..]) && out == CropOf(old(sample[..]), Grid(height, width))
    ensures itera > 0 ==> forall r, c :: 0 <= r < height && 0 <= c < width ==> out[r][c] in {-1, 1}
  {
    var g := Grid(height, width);
    var y := if yobs.Some? then yobs.value else sample;
    ghost var obs := ObsOf(yobs, sample);
    var sch := Setup(T, anneal, T0, Tf);
    var indices := ComputeIndices(g);
    ghost var sp := Sampler(Rule.Gibbs, Iso(alpha, beta, lam), g, obs, draws, fns);
    GibbsSweeps(sample, y, g, obs, indices, alpha, beta, lam, sch, itera, shuffles, draws, fns);
    out := Crop(sample, g);
    if itera > 0 {
      GibbsRunSetsAll(sp, sch, shuffles, State(old(sample[..]), 0), Interior(g), 0);
      CropOfUnit(g, sample[..]);
    }
  }

  /** Metropolis sampling with single-spin flip proposals and the isotropic energy. */
  method Metropolis(sample: array<int>, height: nat, width: nat, itera: nat,
                    alpha: real, beta: real, T: real,
                    yobs: Option<array<int>>, lam: real, anneal: bool, T0: Option<real>, Tf: Option<real>,
                    shuffles: seq<seq<nat>>, draws: nat -> real, fns: Transcendentals)
    returns (out: seq<seq<int>>)
    requires sample.Length == Grid(height, width).Size()
    requires yobs.Some? ==> yobs.value.Length == sample.Length
    requires |shuffles| == itera
    requires forall s :: 0 <= s < itera ==> ValidSwaps(shuffles[s], height * width)
    requires fns.Valid()
    requires itera > 0 ==> Setup(T, anneal, T0, Tf).Positive()
    modifies sample
    ensures sample[..] == Run(Sampler(Rule.Metropolis, Iso(alpha, beta, lam), Grid(height, width), old(ObsOf(yobs, sample)), draws, fns),
                              Setup(T, anneal, T0, Tf), shuffles, State(old(sample[..]), 0), Interior(Grid(height, width)), 0).spins
    ensures out == CropOf(sample[..], Grid(height, width))
    ensures forall i :: 0 <= i < sample.Length && !Grid(height, width).IsInterior(i) ==> sample[i] == old(sample[i])
    ensures itera == 0 ==> sample[..] == old(sample[..]) && out == CropOf(old(sample[..]), Grid(height, width))
    ensures UnitInterior(Grid(height, width), old(sample[..])) ==>
              forall r, c :: 0 <= r < height && 0 <= c < width ==> out[r][c] in {-1, 1}
  {
    var g := Grid(height, width);
    var y := if yobs.Some? then yobs.value else sample;
    ghost var obs := ObsOf(yobs, sample);
    var sch := Setup(T, anneal, T0, Tf);
    var indices := ComputeIndices(g);
    ghost var sp := Sampler(Rule.Metropolis, Iso(alpha, beta, lam), g, obs, draws, fns);
    MetropolisSweeps(sample, y, g, obs, indices, alpha, beta, lam, sch, itera, shuffles, draws, fns);
    out := Crop(sample, g);
    RunCropUnit(sp, sch, shuffles, State(old(sample[..]), 0), Interior(g));
  }

  /** One Gibbs site update: the live 4-neighbour field, `p_plus`, one draw, and the write of `sample[k]`. */
  method GibbsSite(sample: array<int>, y: array<int>, g: Grid, ghost obs: Obs, k: int,
                   alpha: real, beta: real, lam: real, tEff: real,
                   draws: nat -> real, fns: Transcendentals, cursor: nat)
    returns (next: nat)
    requires sample.Length == g.Size() && y.Length == sample.Length
    requires obs == if y == sample then Live else Fixed(y[..])
    requires g.IsInterior(k) && tEff != 0.0 && fns.Valid()
    modifies sample
    ensures State(sample[..], next)
         == Step(Sampler(Rule.Gibbs, Iso(alpha, beta, lam), g, obs, draws, fns), State(old(sample[..]), cursor), k, tEff)
  {
    var W := g.W();
    NeighboursInBounds(g, k);
    var yk := y[k];
    var nbSum := sample[k - 1] + sample[k + 1] + sample[k - W] + sample[k + W];
    var hLoc := alpha + beta * nbSum as real - lam * yk as real;
    var pPlus := 1.0 / (1.0 + fns.exp(2.0 * hLoc / tEff));
    ghost var n := NeighboursAt(sample[..], k, W);
    assert hLoc == Field(Iso(alpha, beta, lam), n, ObsAt(obs, sample[..], k));
    assert pPlus == PPlus(hLoc, tEff, fns);
    sample[k] := if draws(cursor) < pPlus then 1 else -1;
    next := cursor + 1;
  }

  /**
    One Metropolis site update: the energies of the current and the flipped
    spin on the live lattice, then acceptance outright when `dE <= 0`, or
    through one draw against `exp(-dE / T)`.
  */
  method MetropolisSite(sample: array<int>, y: array<int>, g: Grid, ghost obs: Obs, k: int,
                        alpha: real, beta: real, lam: real, tEff: real,
                        draws: nat -> real, fns: Transcendentals, cursor: nat)
    returns (next: nat)
    requires sample.Length == g.Size() && y.Length == sample.Length
    requires obs == if y == sample then Live else Fixed(y[..])
    requires g.IsInterior(k) && tEff != 0.0 && fns.Valid()
    modifies sample
    ensures State(sample[..], next)
         == Step(Sampler(Rule.Metropolis, Iso(alpha, beta, lam), g, obs, draws, fns), State(old(sample[..]), cursor), k, tEff)
  {
    var W := g.W();
    NeighboursInBounds(g, k);
    var s := sample[k];
    var yk := y[k];
    var nbSum := sample[k - 1] + sample[k + 1] + sample[k - W] + sample[k + W];
    var eCur := alpha * s as real + beta * s as real * nbSum as real - lam * yk as real * s as real;
    var sNew := -s;
    var eNew := alpha * sNew as real + beta * sNew as real * nbSum as real - lam * yk as real * sNew as real;
    var dE := eNew - eCur;
    ghost var n := NeighboursAt(sample[..], k, W);
    ghost var p := Iso(alpha, beta, lam);
    assert eCur == SiteEnergy(p, n, ObsAt(obs, sample[..], k), s);
    assert eNew == SiteEnergy(p, n, ObsAt(obs, sample[..], k), sNew);
    assert AcceptsOutright(p, dE) <==> dE <= 0.0;
    next := cursor;
    if dE <= 0.0 {
      sample[k] := sNew;
    } else {
      if draws(cursor) < fns.exp(-dE / tEff) {
        sample[k] := sNew;
      }
      next := cursor + 1;
    }
  }

  /** One Gibbs sweep: the sites of `indices`, in order, each updated in place by `GibbsSite`. */
  method GibbsSweep(sample: array<int>, y: array<int>, g: Grid, ghost obs: Obs, indices: array<int>,
                   alpha: real, beta: real, lam: real, tEff: real,
                   draws: nat -> real, fns: Transcendentals, cursor: nat)
    returns (next: nat)
    requires sample.Length == g.Size() && y.Length == sample.Length && indices != sample
    requires obs == if y == sample then Live else Fixed(y[..])
    requires forall k :: k in indices[..] ==> g.IsInterior(k)
    requires tEff != 0.0 && fns.Valid()
    modifies sample
    ensures State(sample[..], next)
         == Sweep(Sampler(Rule.Gibbs, Iso(alpha, beta, lam), g, obs, draws, fns), State(old(sample[..]), cursor), indices[..], tEff)
  {
    ghost var sp := Sampler(Rule.Gibbs, Iso(alpha, beta, lam), g, obs, draws, fns);
    next := cursor;
    for pos := 0 to indices.Length
      invariant Sweep(sp, State(sample[..], next), indices[pos..], tEff)
             == Sweep(sp, State(old(sample[..]), cursor), indices[..], tEff)
    {
      var k := indices[pos];
      assert k in indices[..];
      next := GibbsSite(sample, y, g, obs, k, alpha, beta, lam, tEff, draws, fns, next);
      assert indices[pos..][1..] == indices[pos + 1..];
    }
  }

  /** One Metropolis sweep: the sites of `indices`, in order, each updated in place by `MetropolisSite`. */
  method MetropolisSweep(sample: array<int>, y: array<int>, g: Grid, ghost obs: Obs, indices: array<int>,
                   alpha: real, beta: real, lam: real, tEff: real,
                   draws: nat -> real, fns: Transcendentals, cursor: nat)
    returns (next: nat)
    requires sample.Length == g.Size() && y.Length == sample.Length && indices != sample
    requires obs == if y == sample then Live else Fixed(y[..])
    requires forall k :: k in indices[..] ==> g.IsInterior(k)
    requires tEff != 0.0 && fns.Valid()
    modifies sample
    ensures State(sample[..], next)
         == Sweep(Sampler(Rule.Metropolis, Iso(alpha, beta, lam), g, obs, draws, fns), State(old(sample[..]), cursor), indices[..], tEff)
  {
    ghost var sp := Sampler(Rule.Metropolis, Iso(alpha, beta, lam), g, obs, draws, fns);
    next := cursor;
    for pos := 0 to indices.Length
      invariant Sweep(sp, State(sample[..], next), indices[pos..], tEff)
             == Sweep(sp, State(old(sample[..]), cursor), indices[..], tEff)
    {
      var k := indices[pos];
      assert k in indices[..];
      next := MetropolisSite(sample, y, g, obs, k, alpha, beta, lam, tEff, draws, fns, next);
      assert indices[pos..][1..] == indices[pos + 1..];
    }
  }

  /**
    The sweep loop of `Gibbs`: each of the `itera` sweeps computes its
    temperature, shuffles `indices` in place and runs `GibbsSweep`.
  */
  method GibbsSweeps(sample: array<int>, y: array<int>, g: Grid, ghost obs: Obs, indices: array<int>,
                     alpha: real, beta: real, lam: real, sch: Schedule, itera: nat,
                     shuffles: seq<seq<nat>>, draws: nat -> real, fns: Transcendentals)
    requires sample.Length == g.Size() && y.Length == sample.Length
    requires indices != sample && indices != y
    requires obs == if y == sample then Live else Fixed(y[..])
    requires forall k :: k in indices[..] ==> g.IsInterior(k)
    requires |shuffles| == itera && forall s :: 0 <= s < itera ==> ValidSwaps(shuffles[s], indices.Length)
    requires fns.Valid() && (itera > 0 ==> sch.Positive())
    modifies sample, indices
    ensures sample[..] == Run(Sampler(Rule.Gibbs, Iso(alpha, beta, lam), g, obs, draws, fns), sch, shuffles,
                              State(old(sample[..]), 0), old(indices[..]), 0).spins
  {
    ghost var sp := Sampler(Rule.Gibbs, Iso(alpha, beta, lam), g, obs, draws, fns);
    ghost var whole := Run(sp, sch, shuffles, State(sample[..], 0), indices[..], 0);
    var cursor: nat := 0;
    for sweep := 0 to itera
      invariant forall k :: k in indices[..] ==> g.IsInterior(k)
      invariant obs == if y == sample then Live else Fixed(y[..])
      invariant Run(sp, sch, shuffles, State(sample[..], cursor), indices[..], sweep) == whole
    {
      cursor := GibbsPass(sample, y, g, obs, indices, alpha, beta, lam, sch, sweep, shuffles, draws, fns, cursor);
    }
  }

  /** Sweep number `sweep` of `Gibbs`: its temperature, the in-place shuffle, then `GibbsSweep`. */
  method GibbsPass(sample: array<int>, y: array<int>, g: Grid, ghost obs: Obs, indices: array<int>,
                   alpha: real, beta: real, lam: real, sch: Schedule, sweep: nat,
                   shuffles: seq<seq<nat>>, draws: nat -> real, fns: Transcendentals, cursor: nat)
    returns (next: nat)
    requires sample.Length == g.Size() && y.Length == sample.Length
    requires indices != sample && indices != y
    requires obs == if y == sample then Live else Fixed(y[..])
    requires forall k :: k in indices[..] ==> g.IsInterior(k)
    requires sweep < |shuffles| && forall s :: sweep <= s < |shuffles| ==> ValidSwaps(shuffles[s], indices.Length)
    requires fns.Valid() && sch.Positive()
    modifies sample, indices
    ensures forall k :: k in indices[..] ==> g.IsInterior(k)
    ensures Run(Sampler(Rule.Gibbs, Iso(alpha, beta, lam), g, obs, draws, fns), sch, shuffles, State(old(sample[..]), cursor), old(indices[..]), sweep)
         == Run(Sampler(Rule.Gibbs, Iso(alpha, beta, lam), g, obs, draws, fns), sch, shuffles, State(sample[..], next), indices[..], sweep + 1)
  {
    ghost var sp := Sampler(Rule.Gibbs, Iso(alpha, beta, lam), g, obs, draws, fns);
    var tEff := Temperature(sch, sweep, |shuffles|, fns);
    RunUnfold(sp, sch, shuffles, State(sample[..], cursor), indices[..], sweep);
    Shuffle(indices, shuffles[sweep]);
    next := GibbsSweep(sample, y, g, obs, indices, alpha, beta, lam, tEff, draws, fns, cursor);
  }

  /**
    The sweep loop of `Metropolis`: each of the `itera` sweeps computes its
    temperature, shuffles `indices` in place and runs `MetropolisSweep`.
  */
  method MetropolisSweeps(sample: array<int>, y: array<int>, g: Grid, ghost obs: Obs, indices: array<int>,
                 alpha: real, beta: real, lam: real, sch: Schedule, itera: nat,
                 shuffles: seq<seq<nat>>, draws: nat -> real, fns: Transcendentals)
    requires sample.Length == g.Size() && y.Length == sample.Length
    requires indices != sample && indices != y
    requires obs == if y == sample then Live else Fixed(y[..])
    requires forall k :: k in indices[..] ==> g.IsInterior(k)
    requires |shuffles| == itera && forall s :: 0 <= s < itera ==> ValidSwaps(shuffles[s], indices.Length)
    requires fns.Valid() && (itera > 0 ==> sch.Positive())
    modifies sample, indices
    ensures sample[..] == Run(Sampler(Rule.Metropolis, Iso(alpha, beta, lam), g, obs, draws, fns), sch, shuffles,
                              State(old(sample[..]), 0), old(indices[..]), 0).spins
  {
    ghost var sp := Sampler(Rule.Metropolis, Iso(alpha, beta, lam), g, obs, draws, fns);
    ghost var whole := Run(sp, sch, shuffles, State(sample[..], 0), indices[..], 0);
    var cursor: nat := 0;
    for sweep := 0 to itera
      invariant forall k :: k in indices[..] ==> g.IsInterior(k)
      invariant obs == if y == sample then Live else Fixed(y[..])
      invariant Run(sp, sch, shuffles, State(sample[..], cursor), indices[..], sweep) == whole
    {
      cursor := MetropolisPass(sample, y, g, obs, indices, alpha, beta, lam, sch, sweep, shuffles, draws, fns, cursor);
    }
  }

  /** Sweep number `sweep` of `Metropolis`: its temperature, the in-place shuffle, then `MetropolisSweep`. */
  method MetropolisPass(sample: array<int>, y: array<int>, g: Grid, ghost obs: Obs, indices: array<int>,
                   alpha: real, beta: real, lam: real, sch: Schedule, sweep: nat,
                   shuffles: seq<seq<nat>>, draws: nat -> real, fns: Transcendentals, cursor: nat)
    returns (next: nat)
    requires sample.Length == g.Size() && y.Length == sample.Length
    requires indices != sample && indices != y
    requires obs == if y == sample then Live else Fixed(y[..])
    requires forall k :: k in indices[..] ==> g.IsInterior(k)
    requires sweep < |shuffles| && forall s :: sweep <= s < |shuffles| ==> ValidSwaps(shuffles[s], indices.Length)
    requires fns.Valid() && sch.Positive()
    modifies sample, indices
    ensures forall k :: k in indices[..] ==> g.IsInterior(k)
    ensures Run(Sampler(Rule.Metropolis, Iso(alpha, beta, lam), g, obs, draws, fns), sch, shuffles, State(old(sample[..]), cursor), old(indices[..]), sweep)
         == Run(Sampler(Rule.Metropolis, Iso(alpha, beta, lam), g, obs, draws, fns), sch, shuffles, State(sample[..], next), indices[..], sweep + 1)
  {
    ghost var sp := Sampler(Rule.Metropolis, Iso(alpha, beta, lam), g, obs, draws, fns);
    var tEff := Temperature(sch, sweep, |shuffles|, fns);
    RunUnfold(sp, sch, shuffles, State(sample[..], cursor), indices[..], sweep);
    Shuffle(indices, shuffles[sweep]);
    next := MetropolisSweep(sample, y, g, obs, indices, alpha, beta, lam, tEff, draws, fns, cursor);
  }
}
