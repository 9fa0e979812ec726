/**
  The energy model of the Ising posterior at one site.

  Isotropic samplers couple a site to its four nearest neighbours with one
  constant `beta`; anisotropic samplers couple it to eight neighbours with one
  constant per direction (horizontal, vertical, the `\` diagonal and the `/`
  diagonal). Spins and observed pixels are integers; the couplings are reals,
  so every energy below is computed exactly.
*/
module Energy {
  import opened Anneal

  /** Bias `alpha`, couplings and fidelity weight `lam` of one sampler call. */
  datatype Params =
    | Iso(alpha: real, beta: real, lam: real)
    | Aniso(alpha: real, betaH: real, betaV: real, betaD1: real, betaD2: real, lam: real)

  /** The spins around a site, as read from the lattice at the moment of its update. */
  datatype Neighbours = Neighbours(
    left: int, right: int, up: int, down: int,
    upLeft: int, downRight: int, upRight: int, downLeft: int)
  {
    /** The four nearest neighbours' sum (`nb_sum` of the isotropic samplers). */
    function Sum4(): int { left + right + up + down }

    /** The same neighbourhood with every spin reversed. */
    function Negated(): Neighbours {
      Neighbours(-left, -right, -up, -down, -upLeft, -downRight, -upRight, -downLeft)
    }
  }

  /** The neighbours of site `k` in a lattice of row stride `W`. */
  function NeighboursAt(s: seq<int>, k: int, W: nat): Neighbours
    requires 0 <= k - W - 1 && k + W + 1 < |s|
  {
    Neighbours(s[k - 1], s[k + 1], s[k - W], s[k + W],
               s[k - W - 1], s[k + W + 1], s[k - W + 1], s[k + W - 1])
  }

  /**
    The local field of the Gibbs samplers (`h_loc` / `energy` in the source):
    the energy of the site per unit of its own spin.
  */
  function Field(p: Params, n: Neighbours, yk: int): real {
    match p
    case Iso(alpha, beta, lam) =>
      alpha + beta * n.Sum4() as real - lam * yk as real
    case Aniso(alpha, betaH, betaV, betaD1, betaD2, lam) =>
      alpha
      + betaH * (n.left + n.right) as real
      + betaV * (n.up + n.down) as real
      + betaD1 * (n.upLeft + n.downRight) as real
      + betaD2 * (n.upRight + n.downLeft) as real
      - lam * yk as real
  }

  /** The local energy of the Metropolis samplers with spin `x` at the site (`E_cur`, `E_old`, `E_new`). */
  function SiteEnergy(p: Params, n: Neighbours, yk: int, x: int): real {
    match p
    case Iso(alpha, beta, lam) =>
      alpha * x as real + beta * x as real * n.Sum4() as real - lam * yk as real * x as real
    case Aniso(alpha, betaH, betaV, betaD1, betaD2, lam) =>
      alpha * x as real
      + betaH * (x * n.left + x * n.right) as real
      + betaV * (x * n.up + x * n.down) as real
      + betaD1 * (x * n.upLeft + x * n.downRight) as real
      + betaD2 * (x * n.upRight + x * n.downLeft) as real
      - lam * yk as real * x as real
  }

  /** The Metropolis energy is the spin times the Gibbs field, in both topologies. */
  lemma EnergyIsSpinTimesField(p: Params, n: Neighbours, yk: int, x: int)
    ensures SiteEnergy(p, n, yk, x) == x as real * Field(p, n, yk)
  {
    var xr := x as real;
    match p
    case Iso(alpha, beta, lam) =>
      assert beta * xr * n.Sum4() as real == xr * (beta * n.Sum4() as real);
      assert lam * yk as real * xr == xr * (lam * yk as real);
    case Aniso(alpha, betaH, betaV, betaD1, betaD2, lam) =>
      assert (x * n.left + x * n.right) as real == xr * (n.left + n.right) as real;
      assert (x * n.up + x * n.down) as real == xr * (n.up + n.down) as real;
      assert (x * n.upLeft + x * n.downRight) as real == xr * (n.upLeft + n.downRight) as real;
      assert (x * n.upRight + x * n.downLeft) as real == xr * (n.upRight + n.downLeft) as real;
      assert lam * yk as real * xr == xr * (lam * yk as real);
  }

  /**
    Closed form of the Metropolis energy change: flipping spin `s` changes the
    site energy by `-2 * s * field`, which is `-2` times the current energy.
  */
  lemma FlipDelta(p: Params, n: Neighbours, yk: int, s: int)
    ensures SiteEnergy(p, n, yk, -s) - SiteEnergy(p, n, yk, s) == -2.0 * s as real * Field(p, n, yk)
    ensures SiteEnergy(p, n, yk, -s) == -SiteEnergy(p, n, yk, s)
    ensures SiteEnergy(p, n, yk, -s) - SiteEnergy(p, n, yk, s) == -2.0 * SiteEnergy(p, n, yk, s)
  {
    EnergyIsSpinTimesField(p, n, yk, s);
    EnergyIsSpinTimesField(p, n, yk, -s);
  }

  /**
    The anisotropic model with horizontal and vertical couplings `beta` and no
    diagonal coupling is the isotropic model: same field, same energies.
  */
  lemma AnisoExtendsIso(alpha: real, beta: real, lam: real, n: Neighbours, yk: int, x: int)
    ensures Field(Aniso(alpha, beta, beta, 0.0, 0.0, lam), n, yk) == Field(Iso(alpha, beta, lam), n, yk)
    ensures SiteEnergy(Aniso(alpha, beta, beta, 0.0, 0.0, lam), n, yk, x) == SiteEnergy(Iso(alpha, beta, lam), n, yk, x)
  {
    EnergyIsSpinTimesField(Aniso(alpha, beta, beta, 0.0, 0.0, lam), n, yk, x);
    EnergyIsSpinTimesField(Iso(alpha, beta, lam), n, yk, x);
  }

  /**
    Without a bias, reversing every spin and the observation leaves the energy
    unchanged and reverses the field: the coupling and fidelity terms are
    symmetric under global spin reversal.
  */
  lemma ReversalSymmetry(p: Params, n: Neighbours, yk: int, x: int)
    requires p.alpha == 0.0
    ensures Field(p, n.Negated(), -yk) == -Field(p, n, yk)
    ensures SiteEnergy(p, n.Negated(), -yk, -x) == SiteEnergy(p, n, yk, x)
  {
    EnergyIsSpinTimesField(p, n.Negated(), -yk, -x);
    EnergyIsSpinTimesField(p, n, yk, x);
  }

  /** `1 / (1 + exp(2 h / T))`, the conditional probability of spin `+1` at field `h`. */
  function PPlus(h: real, t: real, fns: Transcendentals): (q: real)
    requires t != 0.0 && fns.Valid()
    ensures 0.0 < q < 1.0
    ensures h == 0.0 ==> q == 0.5
  {
    var e := fns.exp(2.0 * h / t);
    assert e > 0.0;
    1.0 / (1.0 + e)
  }

  /** `exp(-dE / T)`, the probability of accepting an uphill move. */
  function Acceptance(dE: real, t: real, fns: Transcendentals): real
    requires t != 0.0
  {
    fns.exp(-dE / t)
  }

  /**
    For a move that does not lower the energy the acceptance value is a
    probability in `(0, 1]`, and exactly `1` for a move of zero energy change.
  */
  lemma AcceptanceInUnit(dE: real, t: real, fns: Transcendentals)
    requires dE >= 0.0 && t > 0.0 && fns.Valid()
    ensures 0.0 < Acceptance(dE, t, fns) <= 1.0
    ensures dE == 0.0 ==> Acceptance(dE, t, fns) == 1.0
  {
    assert -dE / t <= 0.0;
  }
}
