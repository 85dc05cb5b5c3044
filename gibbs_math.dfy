/** The two gibbsMass overloads of the sampler engine: the truncated-normal
    conditional draw of one atom's mass (birth and death), and of the mass
    moved between two atoms (exchange). The random draw and the normal CDF are
    parameters; what is modelled is the temperature scaling, the tail tests,
    the clamping and the validity flag. */
module GibbsMath {
  import opened GapsTypes

  /** Mean and standard deviation of a normal conditional. */
  datatype Normal = Normal(mean: real, sd: real)

  /** The temperature-scaled quadratic coefficient is large enough to draw. */
  predicate Significant(alpha: AlphaParameters, temp: real)
  {
    alpha.s * temp > Epsilon
  }

  /** Conditional of a single atom's mass: mean (su - lambda) / s, sd 1/sqrt(s),
      both coefficients scaled by the annealing temperature. */
  function SingleConditional(alpha: AlphaParameters, temp: real, lambda: real, math: Numerics): Normal
    requires Significant(alpha, temp)
  {
    Normal((alpha.su * temp - lambda) / (alpha.s * temp), math.invSqrt(alpha.s * temp))
  }

  /** Probability mass of the conditional below zero. */
  function SingleLowerTail(alpha: AlphaParameters, temp: real, lambda: real, math: Numerics): real
    requires Significant(alpha, temp)
  {
    var n := SingleConditional(alpha, temp, lambda, math);
    math.pNorm(0.0, n.mean, n.sd)
  }

  /** The single-atom overload takes a draw (rather than returning (0, false)). */
  predicate SingleDrawn(alpha: AlphaParameters, temp: real, lambda: real, math: Numerics)
  {
    Significant(alpha, temp) && SingleLowerTail(alpha, temp, lambda, math) < 1.0
  }

  /** The value the random stream returns for the single-atom draw. */
  function SingleSample(alpha: AlphaParameters, temp: real, lambda: real, math: Numerics,
                        sample: (real, real, real, real) -> real): real
    requires Significant(alpha, temp)
  {
    var n := SingleConditional(alpha, temp, lambda, math);
    sample(SingleLowerTail(alpha, temp, lambda, math), 1.0, n.mean, n.sd)
  }

  /** gibbsMass(alpha, rng): a mass drawn from the non-negative tail of the
      conditional, capped at maxGibbsMass / lambda, flagged valid iff it is at
      least Epsilon; (0, false) when s is insignificant or the tail is empty. */
  function GibbsMass(alpha: AlphaParameters, temp: real, lambda: real, maxGibbsMass: real,
                     math: Numerics, sample: (real, real, real, real) -> real): (g: MassDraw)
    requires lambda > 0.0
    ensures !SingleDrawn(alpha, temp, lambda, math) ==> g == MassDraw(0.0, false)
    ensures SingleDrawn(alpha, temp, lambda, math) ==>
              g.mass <= maxGibbsMass / lambda &&
              (g.mass == maxGibbsMass / lambda || g.mass == SingleSample(alpha, temp, lambda, math, sample))
    ensures SingleDrawn(alpha, temp, lambda, math) && SingleSample(alpha, temp, lambda, math, sample) <= maxGibbsMass / lambda ==>
              g.mass == SingleSample(alpha, temp, lambda, math, sample)
    ensures g.valid <==> g.mass >= Epsilon
    ensures g.valid ==> Epsilon <= g.mass <= maxGibbsMass / lambda
  {
    if Significant(alpha, temp) then
      var n := SingleConditional(alpha, temp, lambda, math);
      var pLower := SingleLowerTail(alpha, temp, lambda, math);
      if pLower < 1.0 then
        var m := sample(pLower, 1.0, n.mean, n.sd);
        var gMass := Min(m, maxGibbsMass / lambda);
        MassDraw(gMass, gMass >= Epsilon)
      else
        MassDraw(0.0, false)
    else
      MassDraw(0.0, false)
  }

  /** Conditional of the mass moved from the second atom to the first: mean
      su / s (lambda cancels), sd 1/sqrt(s). */
  function PairConditional(alpha: AlphaParameters, temp: real, math: Numerics): Normal
    requires Significant(alpha, temp)
  {
    Normal((alpha.su * temp) / (alpha.s * temp), math.invSqrt(alpha.s * temp))
  }

  /** CDF of the pair conditional at -m1 (first atom emptied). */
  function PairLowerTail(alpha: AlphaParameters, m1: real, temp: real, math: Numerics): real
    requires Significant(alpha, temp)
  {
    var n := PairConditional(alpha, temp, math);
    math.pNorm(-m1, n.mean, n.sd)
  }

  /** CDF of the pair conditional at m2 (second atom emptied). */
  function PairUpperTail(alpha: AlphaParameters, m2: real, temp: real, math: Numerics): real
    requires Significant(alpha, temp)
  {
    var n := PairConditional(alpha, temp, math);
    math.pNorm(m2, n.mean, n.sd)
  }

  /** The interval [-m1, m2] holds enough probability on both sides to draw. */
  predicate PairDrawn(alpha: AlphaParameters, m1: real, m2: real, temp: real, math: Numerics)
  {
    && Significant(alpha, temp)
    && !(PairLowerTail(alpha, m1, temp, math) > 0.95 || PairUpperTail(alpha, m2, temp, math) < 0.05)
  }

  /** The value the random stream returns for the pair draw. */
  function PairSample(alpha: AlphaParameters, m1: real, m2: real, temp: real, math: Numerics,
                      sample: (real, real, real, real) -> real): real
    requires Significant(alpha, temp)
  {
    var n := PairConditional(alpha, temp, math);
    sample(PairLowerTail(alpha, m1, temp, math), PairUpperTail(alpha, m2, temp, math), n.mean, n.sd)
  }

  /** gibbsMass(alpha, m1, m2, rng): the mass delta for the first atom, clamped
      to [-m1, m2] so the two masses keep their sum, always flagged valid when
      drawn; (0, false) when s is insignificant or a tail test fails. */
  function GibbsMassPair(alpha: AlphaParameters, m1: real, m2: real, temp: real, math: Numerics,
                         sample: (real, real, real, real) -> real): (g: MassDraw)
    ensures g.valid <==> PairDrawn(alpha, m1, m2, temp, math)
    ensures !g.valid ==> g.mass == 0.0
    ensures g.valid ==> g.mass <= m2 && (-m1 <= m2 ==> -m1 <= g.mass)
    ensures g.valid ==>
              var d := PairSample(alpha, m1, m2, temp, math, sample);
              && (-m1 <= d <= m2 ==> g.mass == d)
              && (d > m2 ==> g.mass == m2)
              && (d < -m1 ==> g.mass == Min(-m1, m2))
  {
    if Significant(alpha, temp) then
      var n := PairConditional(alpha, temp, math);
      var pLower := PairLowerTail(alpha, m1, temp, math);
      var pUpper := PairUpperTail(alpha, m2, temp, math);
      if !(pLower > 0.95 || pUpper < 0.05) then
        var delta := sample(pLower, pUpper, n.mean, n.sd);
        MassDraw(Min(Max(-m1, delta), m2), true)
      else
        MassDraw(0.0, false)
    else
      MassDraw(0.0, false)
  }
}
