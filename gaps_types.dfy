/** Shared value types of the atomic-domain sampler: cells, atoms' staged
    operations, proposals, diagnostic counters, and the bundles that stand for
    the foreign numerical routines, the per-proposal random stream and the
    orientation-specific collaborators (amplitude or pattern sampler). */
module GapsTypes {

  /** Smallest mass an atom may carry (gaps::epsilon). Its exact value lives in
      a header that is not part of this model; the proofs use only that it is
      positive. */
  const Epsilon: real := 0.00001

  function Max(a: real, b: real): real { if a >= b then a else b }
  function Min(a: real, b: real): real { if a <= b then a else b }

  datatype Option<T> = None | Some(value: T)

  /** A cell (row, col) of the sampled factor matrix. */
  datatype Cell = Cell(row: nat, col: nat)

  /** The quadratic and linear coefficients of the local log-likelihood in the
      proposed mass (AlphaParameters). */
  datatype AlphaParameters = AlphaParameters(s: real, su: real)

  /** What a Gibbs mass computation returns: the mass (or mass delta) and the
      flag saying whether the draw may be used. */
  datatype MassDraw = MassDraw(mass: real, valid: bool)

  /** One call of updateAPMatrix(row, col, delta). The AP matrix is the
      initial product plus the effect of every call in the log. */
  datatype ApUpdate = ApUpdate(cell: Cell, delta: real)

  /** A staged cacheInsert(pos, mass) of the atomic domain. */
  datatype StagedInsert = StagedInsert(pos: nat, mass: real)

  /** Accept/reject diagnostics kept by the proposal queue. */
  datatype Counters = Counters(acceptBirth: nat, rejectBirth: nat, acceptDeath: nat, rejectDeath: nat)

  function Tally(k: Counters): nat
  {
    k.acceptBirth + k.rejectBirth + k.acceptDeath + k.rejectDeath
  }

  /** after is before with exactly one of the four counters bumped by one. */
  predicate OneBumped(before: Counters, after: Counters)
  {
    || after == before.(acceptBirth := before.acceptBirth + 1)
    || after == before.(rejectBirth := before.rejectBirth + 1)
    || after == before.(acceptDeath := before.acceptDeath + 1)
    || after == before.(rejectDeath := before.rejectDeath + 1)
  }

  /** Deterministic numerical routines the engine calls but does not define:
      natural log, 1/sqrt, the normal CDF p_norm(q, mean, sd), the gamma CDF
      p_gamma(q, shape, scale) and the gamma density d_gamma(x, shape, scale). */
  datatype Numerics = Numerics(
    log: real -> real,
    invSqrt: real -> real,
    pNorm: (real, real, real) -> real,
    pGamma: (real, real, real) -> real,
    dGamma: (real, real, real) -> real)

  /** The draws one proposal takes from its own random stream. A proposal uses
      each kind of draw at most once, so its stream is given by the value of
      each draw: uniform(), exponential(rate),
      inverseNormSample(pLower, pUpper, mean, sd) and
      inverseGammaSample(lower, upperCdf, shape, scale). */
  datatype Rng = Rng(
    uniform: real,
    exponential: real -> real,
    inverseNormSample: (real, real, real, real) -> real,
    inverseGammaSample: (real, real, real, real) -> real)

  /** What the amplitude or pattern specialisation supplies: the position to
      cell map (getRow/getCol), the Gibbs eligibility tests, the alpha
      parameters and the log-likelihood delta of a two-cell change. Those that
      read the AP matrix receive the log of AP updates made so far. */
  datatype Orientation = Orientation(
    cellOf: nat -> Cell,
    canUseGibbs: (Cell, seq<ApUpdate>) -> bool,
    canUseGibbsPair: (Cell, Cell, seq<ApUpdate>) -> bool,
    alphaParameters: (Cell, seq<ApUpdate>) -> AlphaParameters,
    alphaParametersPair: (Cell, Cell, seq<ApUpdate>) -> AlphaParameters,
    computeDeltaLL: (Cell, real, Cell, real, seq<ApUpdate>) -> real)

  /** One atomic proposal: its type tag ('B', 'D', 'M' or 'E'), the birth
      position, the positions of the atoms it borrows, the move destination
      and its random stream. */
  datatype AtomicProposal = AtomicProposal(
    kind: char,
    birthPos: nat,
    atom1: nat,
    atom2: nat,
    moveDest: nat,
    rng: Rng)

  /** The domain positions a proposal reads or writes. */
  function Touched(p: AtomicProposal): set<nat>
  {
    match p.kind
    case 'B' => {p.birthPos}
    case 'D' => {p.atom1}
    case 'M' => {p.atom1, p.moveDest}
    case 'E' => {p.atom1, p.atom2}
    case _ => {}
  }

  /** Whether processing the proposal bumps exactly one queue counter: births,
      deaths and exchanges do, moves and unknown tags do not. */
  predicate IsCounted(p: AtomicProposal)
  {
    p.kind == 'B' || p.kind == 'D' || p.kind == 'E'
  }

  function CountedIn(batch: seq<AtomicProposal>): nat
  {
    if batch == [] then 0
    else CountedIn(batch[..|batch| - 1]) + (if IsCounted(batch[|batch| - 1]) then 1 else 0)
  }

  /** Counting a batch processed after another adds up. */
  lemma {:induction false} CountedInAppend(a: seq<AtomicProposal>, b: seq<AtomicProposal>)
    ensures CountedIn(a + b) == CountedIn(a) + CountedIn(b)
    decreases |b|
  {
    if b != [] {
      assert (a + b)[..|a + b| - 1] == a + b[..|b| - 1];
      CountedInAppend(a, b[..|b| - 1]);
    } else {
      assert a + b == a;
    }
  }
}
