/**
  The annealing schedule shared by the four samplers, and the transcendental
  functions (`exp`, `**`) the samplers call.

  `exp` and `pow` are floating-point library routines; here they are inputs,
  and `Transcendentals.Valid` lists the only facts about them the model uses.
*/
module Anneal {
  import opened Options

  /** The exponential and power functions the samplers are given. */
  datatype Transcendentals = Transcendentals(exp: real -> real, pow: (real, real) -> real) {

    /** Facts the real `exp` and `pow` satisfy, and nothing more. */
    ghost predicate Valid() {
      && (forall x :: exp(x) > 0.0)
      && (forall x :: x <= 0.0 ==> exp(x) <= 1.0)
      && exp(0.0) == 1.0
      && (forall b, e :: b > 0.0 ==> pow(b, e) > 0.0)
      && (forall b :: b > 0.0 ==> pow(b, 0.0) == 1.0)
      && (forall b :: b > 0.0 ==> pow(b, 1.0) == b)
    }
  }

  /** The temperature rule of one sampler call: fixed, or geometric decay from `t0` to `tf`. */
  datatype Schedule = Constant(t: real) | Geometric(t0: real, tf: real) {

    /** The temperatures the schedule can produce are all strictly positive. */
    predicate Positive() {
      match this
      case Constant(t) => t > 0.0
      case Geometric(t0, tf) => t0 > 0.0 && tf > 0.0
    }
  }

  /**
    The annealing set-up at the start of every sampler: without annealing the
    base temperature `T` is used throughout; with annealing a missing `T0`
    defaults to `T` and a missing `Tf` to a tenth of the (defaulted) `T0`.
  */
  function Setup(T: real, anneal: bool, T0: Option<real>, Tf: Option<real>): Schedule {
    if anneal then
      var t0 := T0.GetOr(T);
      Geometric(t0, Tf.GetOr(0.1 * t0))
    else
      Constant(T)
  }

  /** The defaults are `T0 = T` and `Tf = 0.1 * T0`; a given value is kept. */
  lemma SetupDefaults(T: real, T0: Option<real>, Tf: Option<real>)
    ensures Setup(T, false, T0, Tf) == Constant(T)
    ensures Setup(T, true, None, None) == Geometric(T, 0.1 * T)
    ensures T0.Some? ==> Setup(T, true, T0, None) == Geometric(T0.value, 0.1 * T0.value)
    ensures Tf.Some? ==> Setup(T, true, None, Tf) == Geometric(T, Tf.value)
    ensures Setup(T, true, T0, Tf).t0 == if T0.Some? then T0.value else T
  {
  }

  /** `max(1, ITERA - 1)`, the denominator of the annealing exponent. */
  function Span(itera: nat): (d: nat)
    ensures d >= 1
    ensures itera >= 2 ==> d == itera - 1
  {
    if itera - 1 >= 1 then itera - 1 else 1
  }

  /** `sweep / max(1, ITERA - 1)` as a true (real) division. */
  function Exponent(sweep: nat, itera: nat): (e: real)
    requires sweep < itera
    ensures 0.0 <= e <= 1.0
    ensures sweep == 0 <==> e == 0.0
    ensures itera >= 2 && sweep == itera - 1 ==> e == 1.0
  {
    var d := Span(itera) as real;
    assert sweep as real <= d;
    sweep as real / d
  }

  /**
    The effective temperature of sweep `sweep` out of `itera`:
    `T0 * (Tf / T0) ** exponent` when annealing, `T` otherwise.
  */
  function Temperature(sch: Schedule, sweep: nat, itera: nat, fns: Transcendentals): (t: real)
    requires sweep < itera
    requires sch.Positive() && fns.Valid()
    ensures t > 0.0
  {
    match sch
    case Constant(t) => t
    case Geometric(t0, tf) =>
      var p := fns.pow(tf / t0, Exponent(sweep, itera));
      assert p > 0.0;
      t0 * p
  }

  /** Without annealing every sweep runs at the base temperature. */
  lemma ConstantTemperature(T: real, T0: Option<real>, Tf: Option<real>, sweep: nat, itera: nat, fns: Transcendentals)
    requires sweep < itera && T > 0.0 && fns.Valid()
    ensures Temperature(Setup(T, false, T0, Tf), sweep, itera, fns) == T
  {
  }

  /** Annealing starts at `T0` on sweep 0 and, with two sweeps or more, ends at `Tf` on the last one. */
  lemma GeometricEnds(t0: real, tf: real, itera: nat, fns: Transcendentals)
    requires itera >= 1 && t0 > 0.0 && tf > 0.0 && fns.Valid()
    ensures Temperature(Geometric(t0, tf), 0, itera, fns) == t0
    ensures itera >= 2 ==> Temperature(Geometric(t0, tf), itera - 1, itera, fns) == tf
  {
    assert fns.pow(tf / t0, 0.0) == 1.0;
    if itera >= 2 {
      assert fns.pow(tf / t0, 1.0) == tf / t0;
      assert t0 * (tf / t0) == tf;
    }
  }
}
