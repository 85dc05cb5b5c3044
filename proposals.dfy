/** The decisions the engine takes for one proposal, as functions of the
    sampler's scalars, the atom masses, what the orientation collaborators
    answer and the proposal's random draws: the birth mass, the death's rebirth
    mass and Metropolis test, the move's Metropolis test, the exchange outcome,
    and the arithmetic of acceptExchange / updateAtomMass. The sampler's
    methods are proved to act exactly as these functions say. */
module Proposals {
  import opened GapsTypes
  import opened GibbsMath

  /** The sampler scalars the decisions read: lambda, maxGibbsMass, the
      annealing temperature and the numerical routines. */
  datatype Settings = Settings(lambda: real, maxGibbsMass: real, annealingTemp: real, math: Numerics)

  /** The single-atom Gibbs draw with the sampler's settings. */
  function SettingsGibbsMass(st: Settings, alpha: AlphaParameters, rng: Rng): MassDraw
    requires st.lambda > 0.0
  {
    GibbsMass(alpha, st.annealingTemp, st.lambda, st.maxGibbsMass, st.math, rng.inverseNormSample)
  }

  /** birth: the proposed mass, from the Gibbs conditional when the cell is
      eligible, from the Exponential(lambda) prior otherwise. A Gibbs mass is
      used whatever its flag, and the flag agrees with the acceptance test. */
  function BirthMass(st: Settings, gibbsOk: bool, alpha: AlphaParameters, rng: Rng): (mass: real)
    requires st.lambda > 0.0
    ensures gibbsOk ==> (mass >= Epsilon <==> SettingsGibbsMass(st, alpha, rng).valid)
    ensures gibbsOk && mass >= Epsilon ==> mass <= st.maxGibbsMass / st.lambda
    ensures !gibbsOk ==> mass == rng.exponential(st.lambda)
  {
    if gibbsOk then SettingsGibbsMass(st, alpha, rng).mass else rng.exponential(st.lambda)
  }

  /** death: the rebirth mass is the atom's own mass unless the cell is Gibbs
      eligible and the Gibbs draw is flagged valid. It never falls below
      Epsilon when the atom's mass does not. */
  function RebirthMass(st: Settings, atomMass: real, gibbsOk: bool, alpha: AlphaParameters, rng: Rng): (m: real)
    requires st.lambda > 0.0
    ensures gibbsOk && SettingsGibbsMass(st, alpha, rng).valid ==> m == SettingsGibbsMass(st, alpha, rng).mass
    ensures !(gibbsOk && SettingsGibbsMass(st, alpha, rng).valid) ==> m == atomMass
    ensures atomMass >= Epsilon ==> m >= Epsilon
    ensures m <= Max(atomMass, st.maxGibbsMass / st.lambda)
  {
    var rebirthMass := atomMass;
    if gibbsOk then
      var g := SettingsGibbsMass(st, alpha, rng);
      if g.valid then g.mass else rebirthMass
    else
      rebirthMass
  }

  /** Log-likelihood change of (re)placing mass in a cell: mass (su - s mass / 2). */
  function DeathDeltaLL(mass: real, alpha: AlphaParameters): real
  {
    mass * (alpha.su - alpha.s * mass / 2.0)
  }

  /** death: the rebirth is accepted (the death rejected) when the tempered
      log-likelihood change is at least log(u). */
  predicate RebirthAccepted(st: Settings, mass: real, alpha: AlphaParameters, rng: Rng)
  {
    DeathDeltaLL(mass, alpha) * st.annealingTemp >= st.math.log(rng.uniform)
  }

  /** move: accepted when the tempered log-likelihood change strictly exceeds log(u). */
  predicate MoveAccepted(st: Settings, deltaLL: real, rng: Rng)
  {
    deltaLL * st.annealingTemp > st.math.log(rng.uniform)
  }

  /** exchange fallback: the new mass of the larger atom, drawn from a
      Gamma(2, 1/lambda) truncated to [0, m1 + m2]. */
  function FallbackNewMass(st: Settings, m1: real, m2: real, rng: Rng): real
    requires st.lambda > 0.0
  {
    var pUpper := st.math.pGamma(m1 + m2, 2.0, 1.0 / st.lambda);
    rng.inverseGammaSample(0.0, pUpper, 2.0, 1.0 / st.lambda)
  }

  /** exchange fallback: the delta for the first atom that gives the larger
      atom (the second on a tie) the new mass, keeping the sum. */
  function FallbackDelta(m1: real, m2: real, newMass: real): (d: real)
    ensures m1 > m2 ==> m1 + d == newMass && m2 - d == m1 + m2 - newMass
    ensures m1 <= m2 ==> m2 - d == newMass && m1 + d == m1 + m2 - newMass
    ensures 0.0 <= newMass <= m1 + m2 ==> -m1 <= d <= m2
  {
    if m1 > m2 then newMass - m1 else m2 - newMass
  }

  /** exchange fallback: the old mass whose prior density is compared with
      the new one, the larger old mass when the new mass is above half the
      total, the smaller otherwise. */
  function PriorOldMass(m1: real, m2: real, newMass: real): (p: real)
    ensures p == m1 || p == m2
    ensures 2.0 * newMass > m1 + m2 ==> p >= m1 && p >= m2
    ensures 2.0 * newMass <= m1 + m2 ==> p <= m1 && p <= m2
  {
    if 2.0 * newMass > m1 + m2 then Max(m1, m2) else Min(m1, m2)
  }

  /** exchange fallback: the Metropolis-Hastings test, log(u * priorLL) below
      the tempered log-likelihood change, where priorLL is pOld / pNew, or 1
      when pOld is zero. */
  predicate FallbackAccepted(st: Settings, pOld: real, pNew: real, deltaLL: real, rng: Rng)
  {
    var priorLL := if pOld == 0.0 || pNew == 0.0 then 1.0 else pOld / pNew;
    st.math.log(rng.uniform * priorLL) < deltaLL * st.annealingTemp
  }

  /** exchange: Some(delta) when acceptExchange is called with that delta for
      the first atom, None when the exchange is rejected. deltaLL is the
      log-likelihood change of the fallback delta (adding it to the first
      cell and taking it from the second). When the old prior density is
      non-zero and the new one is zero, the floating-point ratio pOld / pNew
      is infinite and the test fails, which is written out as a rejection. */
  function ExchangeOutcome(st: Settings, m1: real, m2: real, gibbsOk: bool, alpha: AlphaParameters,
                           rng: Rng, deltaLL: real): (o: Option<real>)
    requires st.lambda > 0.0
  {
    var g := GibbsMassPair(alpha, m1, m2, st.annealingTemp, st.math, rng.inverseNormSample);
    if gibbsOk && g.valid then Some(g.mass)
    else
      var newMass := FallbackNewMass(st, m1, m2, rng);
      var delta := FallbackDelta(m1, m2, newMass);
      var pNew := st.math.dGamma(newMass, 2.0, 1.0 / st.lambda);
      var pOld := st.math.dGamma(PriorOldMass(m1, m2, newMass), 2.0, 1.0 / st.lambda);
      if pOld == 0.0 && pNew != 0.0 then Some(delta)
      else if pOld != 0.0 && pNew == 0.0 then None
      else if FallbackAccepted(st, pOld, pNew, deltaLL, rng) then Some(delta)
      else None
  }

  /** What exchange's outcome promises: a valid pair Gibbs draw is taken
      as is; otherwise the delta comes from the fallback mass; the prior
      ratio's two degenerate cases decide outright; and under the fallback
      the delta keeps both masses non-negative. */
  lemma ExchangeOutcomeFacts(st: Settings, m1: real, m2: real, gibbsOk: bool, alpha: AlphaParameters,
                             rng: Rng, deltaLL: real)
    requires st.lambda > 0.0
    ensures var o := ExchangeOutcome(st, m1, m2, gibbsOk, alpha, rng, deltaLL);
            var g := GibbsMassPair(alpha, m1, m2, st.annealingTemp, st.math, rng.inverseNormSample);
            var newMass := FallbackNewMass(st, m1, m2, rng);
            var pNew := st.math.dGamma(newMass, 2.0, 1.0 / st.lambda);
            var pOld := st.math.dGamma(PriorOldMass(m1, m2, newMass), 2.0, 1.0 / st.lambda);
            (gibbsOk && g.valid ==> o == Some(g.mass)) &&
            (!(gibbsOk && g.valid) ==>
               (o.Some? ==> o.value == FallbackDelta(m1, m2, newMass)) &&
               (pOld == 0.0 && pNew != 0.0 ==> o.Some?) &&
               (pOld != 0.0 && pNew == 0.0 ==> o == None)) &&
            (0.0 <= m1 && 0.0 <= m2 && 0.0 <= newMass <= m1 + m2 && o.Some? ==> -m1 <= o.value <= m2)
  {
  }

  /** updateAtomMass: None when the new mass would fall below Epsilon (the
      atom is erased and its mass left alone), otherwise the new mass. */
  function MassUpdate(mass: real, delta: real): (r: Option<real>)
    ensures r.None? <==> mass + delta < Epsilon
    ensures r.Some? ==> r.value == mass + delta && r.value >= Epsilon
  {
    if mass + delta < Epsilon then None else Some(mass + delta)
  }

  /** The mass an atom has after an update: zero once erased. */
  function Remaining(u: Option<real>): real
  {
    if u.Some? then u.value else 0.0
  }

  /** What acceptExchange does with a delta d1 for the first atom: each
      atom's update, the deltas written to the two cells and AP, and how many
      deaths it accepts and rejects. */
  datatype ExchangeResult = ExchangeResult(
    mass1: Option<real>, mass2: Option<real>,
    delta1: real, delta2: real,
    acceptDeaths: nat, rejectDeaths: nat)

  /** acceptExchange(d1): d2 = -d1; an atom whose new mass would be below
      Epsilon is erased and its whole mass taken out of its cell instead, so
      each cell changes by exactly what its atom gains or loses. */
  function ExchangeEffect(m1: real, m2: real, d1: real): (r: ExchangeResult)
    ensures r.delta1 == Remaining(r.mass1) - m1 && r.delta2 == Remaining(r.mass2) - m2
    ensures r.mass1 == MassUpdate(m1, d1) && r.mass2 == MassUpdate(m2, -d1)
  {
    var d2 := -1.0 * d1;
    var b1 := MassUpdate(m1, d1);
    var b2 := MassUpdate(m2, d2);
    ExchangeResult(
      b1, b2,
      if b1.Some? then d1 else -1.0 * m1,
      if b2.Some? then d2 else -1.0 * m2,
      (if b1.None? then 1 else 0) + (if b2.None? then 1 else 0),
      if b1.Some? && b2.Some? then 1 else 0)
  }

  /** The promises of acceptExchange: with both updates kept the deltas
      cancel and the death is rejected; when both atoms carry at least
      Epsilon one of them survives (GAPS_ASSERT(b1 || b2)) and exactly one
      counter moves; a delta within the two masses loses less than Epsilon
      of the total. */
  lemma ExchangeEffectFacts(m1: real, m2: real, d1: real)
    ensures var r := ExchangeEffect(m1, m2, d1);
            (m1 + d1 > Epsilon && m2 - d1 > Epsilon ==>
               r.mass1 == Some(m1 + d1) && r.mass2 == Some(m2 - d1) &&
               r.delta2 == -r.delta1 && r.delta1 == d1 &&
               r.rejectDeaths == 1 && r.acceptDeaths == 0) &&
            (r.mass1.Some? && r.mass2.Some? ==> r.delta1 + r.delta2 == 0.0 && r.rejectDeaths == 1) &&
            (m1 >= Epsilon && m2 >= Epsilon ==>
               (r.mass1.Some? || r.mass2.Some?) && r.acceptDeaths + r.rejectDeaths == 1) &&
            (m1 >= Epsilon && m2 >= Epsilon && -m1 <= d1 <= m2 ==>
               -Epsilon < r.delta1 + r.delta2 <= 0.0)
  {
  }
}
