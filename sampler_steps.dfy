/** What one proposal does to the sampler, as functions on a value: the
    factor matrix, the committed atoms, the staged inserts and erases, the AP
    update log and the queue counters. The sampler's methods are proved to
    produce exactly these values; the invariant the engine relies on (every
    atom carries at least Epsilon, every cell holds the mass of its atoms, the
    matrix keeps its shape) is proved here to survive every step, a whole
    batch and the flush that ends a round. */
module SamplerSteps {
  import opened GapsTypes
  import opened GibbsMath
  import opened Proposals
  import opened AtomicDomain

  datatype SamplerState = SamplerState(
    matrix: map<Cell, real>,
    domain: map<nat, real>,
    insertCache: seq<StagedInsert>,
    eraseCache: seq<nat>,
    apLog: seq<ApUpdate>,
    counters: Counters)

  /** The atoms once the staged operations are committed. */
  function Live(s: SamplerState): map<nat, real>
  {
    Flushed(s.domain, s.eraseCache, s.insertCache)
  }

  /** A committed atom that no staged operation has touched yet. */
  predicate Held(s: SamplerState, q: nat)
  {
    Untouched(s.domain, s.eraseCache, s.insertCache, q)
  }

  /** A position with no atom, committed or staged. */
  predicate Free(s: SamplerState, q: nat)
  {
    q !in s.domain && q !in s.eraseCache && q !in InsertMap(s.insertCache)
  }

  /** The proposal's positions are as the queue promised: a birth lands on a
      free position, deaths, moves and exchanges borrow untouched atoms, a
      move goes to a free position, and a move or an exchange spans two
      different cells. */
  predicate Ready(s: SamplerState, cellOf: nat -> Cell, p: AtomicProposal)
  {
    match p.kind
    case 'B' => Free(s, p.birthPos)
    case 'D' => Held(s, p.atom1)
    case 'M' => Held(s, p.atom1) && Free(s, p.moveDest) && cellOf(p.atom1) != cellOf(p.moveDest)
    case 'E' => Held(s, p.atom1) && Held(s, p.atom2) && cellOf(p.atom1) != cellOf(p.atom2)
    case _ => true
  }

  /** The sampler's invariant: the matrix has exactly the cells of a
      rows x cols matrix, every position maps into it, every live atom carries
      at least Epsilon and every cell holds the total mass of its live atoms. */
  ghost predicate Inv(s: SamplerState, cellOf: nat -> Cell, rows: nat, cols: nat)
  {
    Shaped(s.matrix, rows, cols) && Covers(s.matrix, cellOf) &&
    Consistent(s.matrix, s.domain, s.eraseCache, s.insertCache, cellOf)
  }

  /** The matrix has exactly the cells of a rows x cols matrix. */
  ghost predicate Shaped(m: map<Cell, real>, rows: nat, cols: nat)
  {
    forall c: Cell :: c in m <==> c.row < rows && c.col < cols
  }

  /** Every position maps into the matrix. */
  ghost predicate Covers(m: map<Cell, real>, cellOf: nat -> Cell)
  {
    forall p: nat :: cellOf(p) in m
  }

  // --------------------------------------------------------------- outcomes

  /** An accepted birth: the atom is staged and its mass added to its cell
      and to AP. */
  function Born(s: SamplerState, c: Cell, pos: nat, mass: real): SamplerState
  {
    s.(insertCache := s.insertCache + [StagedInsert(pos, mass)],
       matrix := Bump(s.matrix, c, mass),
       apLog := s.apLog + [ApUpdate(c, mass)],
       counters := s.counters.(acceptBirth := s.counters.acceptBirth + 1))
  }

  /** The first half of a death: the atom's mass leaves its cell (clamped
      at zero) and AP, the atom itself still in place. */
  function Removed(s: SamplerState, c: Cell, m: real): SamplerState
  {
    s.(matrix := Withdraw(s.matrix, c, m),
       apLog := s.apLog + [ApUpdate(c, -1.0 * m)])
  }

  /** A rejected death: the atom is reborn with mass r, which goes back into
      its cell and AP. */
  function Reborn(s: SamplerState, c: Cell, p: nat, r: real): SamplerState
  {
    s.(domain := s.domain[p := r],
       matrix := Bump(s.matrix, c, r),
       apLog := s.apLog + [ApUpdate(c, r)],
       counters := s.counters.(rejectDeath := s.counters.rejectDeath + 1))
  }

  /** An accepted death: the atom's erase is staged. */
  function Erased(s: SamplerState, p: nat): SamplerState
  {
    s.(eraseCache := s.eraseCache + [p],
       counters := s.counters.(acceptDeath := s.counters.acceptDeath + 1))
  }

  /** An accepted move: the atom goes from p to q and its mass m from cell
      c1 (clamped at zero) to cell c2. */
  function Moved(s: SamplerState, c1: Cell, c2: Cell, p: nat, q: nat, m: real): SamplerState
  {
    s.(domain := (s.domain - {p})[q := m],
       matrix := Bump(Withdraw(s.matrix, c1, m), c2, m),
       apLog := s.apLog + [ApUpdate(c1, -1.0 * m), ApUpdate(c2, m)])
  }

  /** updateAtomMass on atom k followed by its share of acceptExchange's
      cell and AP update: the atom keeps the new mass (Some) or its erase is
      staged (None), and its cell changes by delta. */
  function Resized(s: SamplerState, c: Cell, k: nat, u: Option<real>, delta: real): SamplerState
  {
    if u.Some? then
      s.(domain := s.domain[k := u.value], matrix := Bump(s.matrix, c, delta), apLog := s.apLog + [ApUpdate(c, delta)])
    else
      s.(eraseCache := s.eraseCache + [k], matrix := Bump(s.matrix, c, delta), apLog := s.apLog + [ApUpdate(c, delta)])
  }

  // ------------------------------------------------------------------ steps

  /** The mass birth draws for its position: the Gibbs mass when allowed and
      valid, the prior draw otherwise. */
  function BirthDraw(s: SamplerState, st: Settings, o: Orientation, prop: AtomicProposal): real
    requires st.lambda > 0.0
  {
    var c := o.cellOf(prop.birthPos);
    BirthMass(st, o.canUseGibbs(c, s.apLog), o.alphaParameters(c, s.apLog), prop.rng)
  }

  /** birth: a new atom at birthPos, accepted when its mass is at least
      Epsilon. */
  function BirthStep(s: SamplerState, st: Settings, o: Orientation, prop: AtomicProposal): SamplerState
    requires st.lambda > 0.0
  {
    var mass := BirthDraw(s, st, o, prop);
    if mass >= Epsilon then Born(s, o.cellOf(prop.birthPos), prop.birthPos, mass)
    else s.(counters := s.counters.(rejectBirth := s.counters.rejectBirth + 1))
  }

  /** The rebirth mass death draws once the atom's mass has left its cell,
      and whether the rebirth is accepted. */
  function DeathDraw(s: SamplerState, st: Settings, o: Orientation, prop: AtomicProposal): (real, bool)
    requires st.lambda > 0.0
  {
    var c := o.cellOf(prop.atom1);
    var log1 := Removed(s, c, MassAt(s.domain, prop.atom1)).apLog;
    var alpha := o.alphaParameters(c, log1);
    var rebirth := RebirthMass(st, MassAt(s.domain, prop.atom1), o.canUseGibbs(c, log1), alpha, prop.rng);
    (rebirth, RebirthAccepted(st, rebirth, alpha, prop.rng))
  }

  /** death: remove the atom's mass, then either rebirth or erase it. */
  function DeathStep(s: SamplerState, st: Settings, o: Orientation, prop: AtomicProposal): SamplerState
    requires st.lambda > 0.0
  {
    var c := o.cellOf(prop.atom1);
    var killed := Removed(s, c, MassAt(s.domain, prop.atom1));
    var draw := DeathDraw(s, st, o, prop);
    if draw.1 then Reborn(killed, c, prop.atom1, draw.0) else Erased(killed, prop.atom1)
  }

  /** Whether move's Metropolis test passes. */
  function MoveDraw(s: SamplerState, st: Settings, o: Orientation, prop: AtomicProposal): bool
  {
    var m := MassAt(s.domain, prop.atom1);
    MoveAccepted(st, o.computeDeltaLL(o.cellOf(prop.atom1), -1.0 * m, o.cellOf(prop.moveDest), m, s.apLog), prop.rng)
  }

  /** move: the atom goes to moveDest when the test passes. */
  function MoveStep(s: SamplerState, st: Settings, o: Orientation, prop: AtomicProposal): SamplerState
  {
    if MoveDraw(s, st, o, prop) then
      Moved(s, o.cellOf(prop.atom1), o.cellOf(prop.moveDest), prop.atom1, prop.moveDest, MassAt(s.domain, prop.atom1))
    else s
  }

  /** acceptExchange(d1): both atoms resized by d1 and -d1, each cell
      changed by what its atom actually gained or lost, one counter bumped. */
  function AcceptExchangeStep(s: SamplerState, o: Orientation, prop: AtomicProposal, d1: real): SamplerState
  {
    var r := ExchangeEffect(MassAt(s.domain, prop.atom1), MassAt(s.domain, prop.atom2), d1);
    Resized(FirstExchanged(s, o, prop, d1), o.cellOf(prop.atom2), prop.atom2, r.mass2, r.delta2)
  }

  /** acceptExchange halfway: the counter bumped and the first atom resized. */
  function FirstExchanged(s: SamplerState, o: Orientation, prop: AtomicProposal, d1: real): SamplerState
  {
    var r := ExchangeEffect(MassAt(s.domain, prop.atom1), MassAt(s.domain, prop.atom2), d1);
    var counted := s.(counters := s.counters.(acceptDeath := s.counters.acceptDeath + r.acceptDeaths,
                                              rejectDeath := s.counters.rejectDeath + r.rejectDeaths));
    Resized(counted, o.cellOf(prop.atom1), prop.atom1, r.mass1, r.delta1)
  }

  /** The delta exchange hands to acceptExchange, or None for a rejected
      death. */
  function ExchangeDraw(s: SamplerState, st: Settings, o: Orientation, prop: AtomicProposal): Option<real>
    requires st.lambda > 0.0
  {
    var c1, c2 := o.cellOf(prop.atom1), o.cellOf(prop.atom2);
    var m1, m2 := MassAt(s.domain, prop.atom1), MassAt(s.domain, prop.atom2);
    var delta := FallbackDelta(m1, m2, FallbackNewMass(st, m1, m2, prop.rng));
    ExchangeOutcome(st, m1, m2, o.canUseGibbsPair(c1, c2, s.apLog), o.alphaParametersPair(c1, c2, s.apLog),
                    prop.rng, o.computeDeltaLL(c1, delta, c2, -delta, s.apLog))
  }

  /** exchange: acceptExchange with the drawn delta, or a rejected death. */
  function ExchangeStep(s: SamplerState, st: Settings, o: Orientation, prop: AtomicProposal): SamplerState
    requires st.lambda > 0.0
  {
    var outcome := ExchangeDraw(s, st, o, prop);
    if outcome.Some? then AcceptExchangeStep(s, o, prop, outcome.value)
    else s.(counters := s.counters.(rejectDeath := s.counters.rejectDeath + 1))
  }

  /** processProposal: dispatch on the type tag; an unknown tag does nothing. */
  function ProposalStep(s: SamplerState, st: Settings, o: Orientation, prop: AtomicProposal): SamplerState
    requires st.lambda > 0.0
  {
    match prop.kind
    case 'B' => BirthStep(s, st, o, prop)
    case 'D' => DeathStep(s, st, o, prop)
    case 'M' => MoveStep(s, st, o, prop)
    case 'E' => ExchangeStep(s, st, o, prop)
    case _ => s
  }

  /** The proposals of a batch processed in order. */
  function RunBatch(s: SamplerState, st: Settings, o: Orientation, batch: seq<AtomicProposal>): SamplerState
    requires st.lambda > 0.0
  {
    if batch == [] then s
    else ProposalStep(RunBatch(s, st, o, batch[..|batch| - 1]), st, o, batch[|batch| - 1])
  }

  /** flushCache: commit the staged inserts and erases. */
  function FlushStep(s: SamplerState): SamplerState
  {
    s.(domain := Live(s), insertCache := [], eraseCache := [])
  }

  /** The state after k rounds of update: each round processes, in order,
      the batch populate draws against the committed domain, then flushes. */
  function Rounds(s: SamplerState, st: Settings, o: Orientation,
                  populate: (nat, map<nat, real>) -> seq<AtomicProposal>, k: nat): SamplerState
    requires st.lambda > 0.0
  {
    if k == 0 then s
    else
      var r := Rounds(s, st, o, populate, k - 1);
      FlushStep(RunBatch(r, st, o, populate(k - 1, r.domain)))
  }

  /** The proposals the first k rounds of update process, in order. */
  function RoundsHistory(s: SamplerState, st: Settings, o: Orientation,
                         populate: (nat, map<nat, real>) -> seq<AtomicProposal>, k: nat): seq<AtomicProposal>
    requires st.lambda > 0.0
  {
    if k == 0 then []
    else RoundsHistory(s, st, o, populate, k - 1) + populate(k - 1, Rounds(s, st, o, populate, k - 1).domain)
  }

  /** The round after the first k, unfolded. */
  lemma RoundsNext(s: SamplerState, st: Settings, o: Orientation,
                   populate: (nat, map<nat, real>) -> seq<AtomicProposal>, k: nat)
    requires st.lambda > 0.0
    ensures var r := Rounds(s, st, o, populate, k);
            && Rounds(s, st, o, populate, k + 1) == FlushStep(RunBatch(r, st, o, populate(k, r.domain)))
            && RoundsHistory(s, st, o, populate, k + 1) == RoundsHistory(s, st, o, populate, k) + populate(k, r.domain)
  {
  }

  // ------------------------------------------------------------- invariant

  /** Adding to a cell of the matrix keeps its shape. */
  lemma ShapeBumped(m: map<Cell, real>, c: Cell, delta: real, cellOf: nat -> Cell, rows: nat, cols: nat)
    requires Shaped(m, rows, cols) && Covers(m, cellOf) && c in m
    ensures Shaped(Bump(m, c, delta), rows, cols) && Covers(Bump(m, c, delta), cellOf)
  {
  }

  /** Taking from a cell of the matrix keeps its shape. */
  lemma ShapeWithdrawn(m: map<Cell, real>, c: Cell, mass: real, cellOf: nat -> Cell, rows: nat, cols: nat)
    requires Shaped(m, rows, cols) && Covers(m, cellOf) && c in m
    ensures Shaped(Withdraw(m, c, mass), rows, cols) && Covers(Withdraw(m, c, mass), cellOf)
  {
  }

  /** The counters and the AP log play no part in the invariant. */
  lemma CountersFree(s: SamplerState, k: Counters, cellOf: nat -> Cell, rows: nat, cols: nat)
    requires Inv(s, cellOf, rows, cols)
    ensures Inv(s.(counters := k), cellOf, rows, cols)
  {
  }

  /** An accepted birth on a free position keeps the invariant. */
  lemma BornKeeps(s: SamplerState, cellOf: nat -> Cell, rows: nat, cols: nat, pos: nat, mass: real)
    requires Inv(s, cellOf, rows, cols) && Free(s, pos) && mass >= Epsilon
    ensures Inv(Born(s, cellOf(pos), pos, mass), cellOf, rows, cols)
  {
    BirthKeeps(s.matrix, s.domain, s.eraseCache, s.insertCache, cellOf, StagedInsert(pos, mass));
    ShapeBumped(s.matrix, cellOf(pos), mass, cellOf, rows, cols);
  }

  /** A rebirth of a held atom keeps the invariant. */
  lemma RebornKeeps(s: SamplerState, cellOf: nat -> Cell, rows: nat, cols: nat, p: nat, r: real)
    requires Inv(s, cellOf, rows, cols) && Held(s, p) && r >= Epsilon
    ensures Inv(Reborn(Removed(s, cellOf(p), s.domain[p]), cellOf(p), p, r), cellOf, rows, cols)
  {
    var c := cellOf(p);
    RebirthKeeps(s.matrix, s.domain, s.eraseCache, s.insertCache, cellOf, p, r);
    ShapeWithdrawn(s.matrix, c, s.domain[p], cellOf, rows, cols);
    ShapeBumped(Withdraw(s.matrix, c, s.domain[p]), c, r, cellOf, rows, cols);
  }

  /** An accepted death of a held atom keeps the invariant. */
  lemma ErasedKeeps(s: SamplerState, cellOf: nat -> Cell, rows: nat, cols: nat, p: nat)
    requires Inv(s, cellOf, rows, cols) && Held(s, p)
    ensures Inv(Erased(Removed(s, cellOf(p), s.domain[p]), p), cellOf, rows, cols)
  {
    DeathKeeps(s.matrix, s.domain, s.eraseCache, s.insertCache, cellOf, p);
    ShapeWithdrawn(s.matrix, cellOf(p), s.domain[p], cellOf, rows, cols);
  }

  /** A move of a held atom to a free position in another cell keeps the
      invariant. */
  lemma MovedKeeps(s: SamplerState, cellOf: nat -> Cell, rows: nat, cols: nat, p: nat, q: nat)
    requires Inv(s, cellOf, rows, cols) && Held(s, p) && Free(s, q) && cellOf(p) != cellOf(q)
    ensures Inv(Moved(s, cellOf(p), cellOf(q), p, q, s.domain[p]), cellOf, rows, cols)
  {
    MoveKeeps(s.matrix, s.domain, s.eraseCache, s.insertCache, cellOf, p, q);
    ShapeWithdrawn(s.matrix, cellOf(p), s.domain[p], cellOf, rows, cols);
    ShapeBumped(Withdraw(s.matrix, cellOf(p), s.domain[p]), cellOf(q), s.domain[p], cellOf, rows, cols);
  }

  /** Resizing a held atom below Epsilon erases it and takes its whole mass
      out of its cell, keeping the invariant. */
  lemma DroppedKeeps(s: SamplerState, cellOf: nat -> Cell, rows: nat, cols: nat, k: nat)
    requires Inv(s, cellOf, rows, cols) && Held(s, k)
    ensures Inv(Resized(s, cellOf(k), k, None, -1.0 * s.domain[k]), cellOf, rows, cols)
  {
    AtomDropKeeps(s.matrix, s.domain, s.eraseCache, s.insertCache, cellOf, k);
    ShapeBumped(s.matrix, cellOf(k), -1.0 * s.domain[k], cellOf, rows, cols);
  }

  /** Resizing a held atom to Epsilon or more moves its cell by delta,
      keeping the invariant. */
  lemma GrownKeeps(s: SamplerState, cellOf: nat -> Cell, rows: nat, cols: nat, k: nat, delta: real)
    requires Inv(s, cellOf, rows, cols) && Held(s, k) && s.domain[k] + delta >= Epsilon
    ensures Inv(Resized(s, cellOf(k), k, Some(s.domain[k] + delta), delta), cellOf, rows, cols)
  {
    var c := cellOf(k);
    assert Consistent(Bump(s.matrix, c, delta), s.domain[k := s.domain[k] + delta], s.eraseCache, s.insertCache, cellOf) by {
      AtomGrowKeeps(s.matrix, s.domain, s.eraseCache, s.insertCache, cellOf, k, delta);
    }
    assert Shaped(Bump(s.matrix, c, delta), rows, cols) && Covers(Bump(s.matrix, c, delta), cellOf) by {
      ShapeBumped(s.matrix, c, delta, cellOf, rows, cols);
    }
    GrownFrom(s, cellOf, rows, cols, k, delta);
  }

  /** The state after growing the atom at k is the bumped matrix with k's
      new mass, so the invariant follows from the domain's. */
  lemma GrownFrom(s: SamplerState, cellOf: nat -> Cell, rows: nat, cols: nat, k: nat, delta: real)
    requires k in s.domain
    requires Shaped(Bump(s.matrix, cellOf(k), delta), rows, cols) && Covers(Bump(s.matrix, cellOf(k), delta), cellOf)
    requires Consistent(Bump(s.matrix, cellOf(k), delta), s.domain[k := s.domain[k] + delta],
                        s.eraseCache, s.insertCache, cellOf)
    ensures Inv(Resized(s, cellOf(k), k, Some(s.domain[k] + delta), delta), cellOf, rows, cols)
  {
  }

  /** Resizing a held atom by delta, as updateAtomMass decides, keeps the
      invariant. */
  lemma ResizedKeeps(s: SamplerState, cellOf: nat -> Cell, rows: nat, cols: nat, k: nat, delta: real,
                     u: Option<real>, change: real)
    requires Inv(s, cellOf, rows, cols) && Held(s, k)
    requires u == MassUpdate(s.domain[k], delta) && change == Remaining(u) - s.domain[k]
    ensures Inv(Resized(s, cellOf(k), k, u, change), cellOf, rows, cols)
  {
    if s.domain[k] + delta < Epsilon {
      assert u == None && change == -1.0 * s.domain[k];
      DroppedKeeps(s, cellOf, rows, cols, k);
    } else {
      assert u == Some(s.domain[k] + delta) && change == delta;
      GrownKeeps(s, cellOf, rows, cols, k, delta);
    }
  }

  /** Resizing the atom at k leaves every other position as it was. */
  lemma ResizedFrame(s: SamplerState, c: Cell, k: nat, u: Option<real>, delta: real)
    ensures forall q | q != k ::
              Held(Resized(s, c, k, u, delta), q) == Held(s, q) && Free(Resized(s, c, k, u, delta), q) == Free(s, q)
  {
  }

  /** An atom the invariant holds and no staged operation touched carries
      at least Epsilon, and its cell holds at least its mass. */
  lemma HeldMass(s: SamplerState, cellOf: nat -> Cell, rows: nat, cols: nat, k: nat)
    requires Inv(s, cellOf, rows, cols) && Held(s, k)
    ensures s.domain[k] >= Epsilon
    ensures cellOf(k) in s.matrix && s.matrix[cellOf(k)] >= s.domain[k]
  {
    UntouchedMass(s.matrix, s.domain, s.eraseCache, s.insertCache, cellOf, k);
  }

  /** birth keeps the invariant. */
  lemma BirthKeepsInv(s: SamplerState, st: Settings, o: Orientation, rows: nat, cols: nat, prop: AtomicProposal)
    requires st.lambda > 0.0 && Inv(s, o.cellOf, rows, cols) && Free(s, prop.birthPos)
    ensures Inv(BirthStep(s, st, o, prop), o.cellOf, rows, cols)
  {
    var mass := BirthDraw(s, st, o, prop);
    if mass >= Epsilon {
      BornKeeps(s, o.cellOf, rows, cols, prop.birthPos, mass);
    } else {
      CountersFree(s, s.counters.(rejectBirth := s.counters.rejectBirth + 1), o.cellOf, rows, cols);
    }
  }

  /** death keeps the invariant. */
  lemma DeathKeepsInv(s: SamplerState, st: Settings, o: Orientation, rows: nat, cols: nat, prop: AtomicProposal)
    requires st.lambda > 0.0 && Inv(s, o.cellOf, rows, cols) && Held(s, prop.atom1)
    ensures Inv(DeathStep(s, st, o, prop), o.cellOf, rows, cols)
  {
    var draw := DeathDraw(s, st, o, prop);
    if draw.1 {
      RebornKeeps(s, o.cellOf, rows, cols, prop.atom1, draw.0);
    } else {
      ErasedKeeps(s, o.cellOf, rows, cols, prop.atom1);
    }
  }

  /** move keeps the invariant. */
  lemma MoveKeepsInv(s: SamplerState, st: Settings, o: Orientation, rows: nat, cols: nat, prop: AtomicProposal)
    requires Inv(s, o.cellOf, rows, cols) && Held(s, prop.atom1) && Free(s, prop.moveDest)
    requires o.cellOf(prop.atom1) != o.cellOf(prop.moveDest)
    ensures Inv(MoveStep(s, st, o, prop), o.cellOf, rows, cols)
  {
    if MoveDraw(s, st, o, prop) {
      MovedKeeps(s, o.cellOf, rows, cols, prop.atom1, prop.moveDest);
    }
  }

  /** acceptExchange keeps the invariant, whatever the delta. */
  lemma AcceptExchangeKeepsInv(s: SamplerState, o: Orientation, rows: nat, cols: nat, prop: AtomicProposal, d1: real)
    requires Inv(s, o.cellOf, rows, cols) && Held(s, prop.atom1) && Held(s, prop.atom2)
    requires o.cellOf(prop.atom1) != o.cellOf(prop.atom2)
    ensures Inv(AcceptExchangeStep(s, o, prop, d1), o.cellOf, rows, cols)
  {
    var r := ExchangeEffect(MassAt(s.domain, prop.atom1), MassAt(s.domain, prop.atom2), d1);
    var s1 := FirstExchanged(s, o, prop, d1);
    FirstExchangedKeeps(s, o, rows, cols, prop, d1);
    ResizedKeeps(s1, o.cellOf, rows, cols, prop.atom2, -d1, r.mass2, r.delta2);
  }

  /** After acceptExchange's first updateAtomMass the invariant holds and
      the second atom is untouched, with the mass it had. */
  lemma FirstExchangedKeeps(s: SamplerState, o: Orientation, rows: nat, cols: nat, prop: AtomicProposal, d1: real)
    requires Inv(s, o.cellOf, rows, cols) && Held(s, prop.atom1) && Held(s, prop.atom2)
    requires o.cellOf(prop.atom1) != o.cellOf(prop.atom2)
    ensures Inv(FirstExchanged(s, o, prop, d1), o.cellOf, rows, cols)
    ensures Held(FirstExchanged(s, o, prop, d1), prop.atom2)
    ensures FirstExchanged(s, o, prop, d1).domain[prop.atom2] == s.domain[prop.atom2]
  {
    var r := ExchangeEffect(MassAt(s.domain, prop.atom1), MassAt(s.domain, prop.atom2), d1);
    var counted := s.(counters := s.counters.(acceptDeath := s.counters.acceptDeath + r.acceptDeaths,
                                              rejectDeath := s.counters.rejectDeath + r.rejectDeaths));
    CountersFree(s, counted.counters, o.cellOf, rows, cols);
    ResizedKeeps(counted, o.cellOf, rows, cols, prop.atom1, d1, r.mass1, r.delta1);
    ResizedFrame(counted, o.cellOf(prop.atom1), prop.atom1, r.mass1, r.delta1);
  }

  /** exchange keeps the invariant. */
  lemma ExchangeKeepsInv(s: SamplerState, st: Settings, o: Orientation, rows: nat, cols: nat, prop: AtomicProposal)
    requires st.lambda > 0.0 && Inv(s, o.cellOf, rows, cols) && Held(s, prop.atom1) && Held(s, prop.atom2)
    requires o.cellOf(prop.atom1) != o.cellOf(prop.atom2)
    ensures Inv(ExchangeStep(s, st, o, prop), o.cellOf, rows, cols)
  {
    var outcome := ExchangeDraw(s, st, o, prop);
    if outcome.Some? {
      AcceptExchangeKeepsInv(s, o, rows, cols, prop, outcome.value);
    } else {
      CountersFree(s, s.counters.(rejectDeath := s.counters.rejectDeath + 1), o.cellOf, rows, cols);
    }
  }

  /** processProposal keeps the invariant. */
  lemma ProposalKeepsInv(s: SamplerState, st: Settings, o: Orientation, rows: nat, cols: nat, prop: AtomicProposal)
    requires st.lambda > 0.0 && Inv(s, o.cellOf, rows, cols) && Ready(s, o.cellOf, prop)
    ensures Inv(ProposalStep(s, st, o, prop), o.cellOf, rows, cols)
  {
    match prop.kind
    case 'B' => BirthKeepsInv(s, st, o, rows, cols, prop);
    case 'D' => DeathKeepsInv(s, st, o, rows, cols, prop);
    case 'M' => MoveKeepsInv(s, st, o, rows, cols, prop);
    case 'E' => ExchangeKeepsInv(s, st, o, rows, cols, prop);
    case _ =>
  }

  /** A batch whose proposals are each ready and touch pairwise disjoint
      positions. */
  predicate BatchReady(s: SamplerState, cellOf: nat -> Cell, batch: seq<AtomicProposal>)
  {
    && (forall i | 0 <= i < |batch| :: Ready(s, cellOf, batch[i]))
    && (forall i, j | 0 <= i < j < |batch| :: Touched(batch[i]) !! Touched(batch[j]))
  }

  /** birth leaves every position but its own as it was. */
  lemma BirthFrame(s: SamplerState, st: Settings, o: Orientation, prop: AtomicProposal)
    requires st.lambda > 0.0
    ensures forall q | q != prop.birthPos ::
              Held(BirthStep(s, st, o, prop), q) == Held(s, q) && Free(BirthStep(s, st, o, prop), q) == Free(s, q)
  {
    var mass := BirthDraw(s, st, o, prop);
    if mass >= Epsilon {
      InsertMapSnoc(s.insertCache, StagedInsert(prop.birthPos, mass));
    }
  }

  /** death leaves every position but its atom's as it was. */
  lemma DeathFrame(s: SamplerState, st: Settings, o: Orientation, prop: AtomicProposal)
    requires st.lambda > 0.0
    ensures forall q | q != prop.atom1 ::
              Held(DeathStep(s, st, o, prop), q) == Held(s, q) && Free(DeathStep(s, st, o, prop), q) == Free(s, q)
  {
  }

  /** move leaves every position but its source and destination as it was. */
  lemma MoveFrame(s: SamplerState, st: Settings, o: Orientation, prop: AtomicProposal)
    ensures forall q | q != prop.atom1 && q != prop.moveDest ::
              Held(MoveStep(s, st, o, prop), q) == Held(s, q) && Free(MoveStep(s, st, o, prop), q) == Free(s, q)
  {
  }

  /** exchange leaves every position but its two atoms' as it was. */
  lemma ExchangeFrame(s: SamplerState, st: Settings, o: Orientation, prop: AtomicProposal)
    requires st.lambda > 0.0
    ensures forall q | q != prop.atom1 && q != prop.atom2 ::
              Held(ExchangeStep(s, st, o, prop), q) == Held(s, q) && Free(ExchangeStep(s, st, o, prop), q) == Free(s, q)
  {
    var outcome := ExchangeDraw(s, st, o, prop);
    if outcome.Some? {
      AcceptExchangeFrame(s, o, prop, outcome.value);
    }
  }

  /** acceptExchange leaves every position but its two atoms' as it was. */
  lemma AcceptExchangeFrame(s: SamplerState, o: Orientation, prop: AtomicProposal, d1: real)
    ensures forall q | q != prop.atom1 && q != prop.atom2 ::
              Held(AcceptExchangeStep(s, o, prop, d1), q) == Held(s, q) &&
              Free(AcceptExchangeStep(s, o, prop, d1), q) == Free(s, q)
  {
    var r := ExchangeEffect(MassAt(s.domain, prop.atom1), MassAt(s.domain, prop.atom2), d1);
    var counted := s.(counters := s.counters.(acceptDeath := s.counters.acceptDeath + r.acceptDeaths,
                                              rejectDeath := s.counters.rejectDeath + r.rejectDeaths));
    ResizedFrame(counted, o.cellOf(prop.atom1), prop.atom1, r.mass1, r.delta1);
    ResizedFrame(FirstExchanged(s, o, prop, d1), o.cellOf(prop.atom2), prop.atom2, r.mass2, r.delta2);
  }

  /** processProposal leaves every position outside the proposal as it
      was. */
  lemma ProposalFrame(s: SamplerState, st: Settings, o: Orientation, prop: AtomicProposal)
    requires st.lambda > 0.0
    ensures forall q | q !in Touched(prop) ::
              Held(ProposalStep(s, st, o, prop), q) == Held(s, q) &&
              Free(ProposalStep(s, st, o, prop), q) == Free(s, q)
  {
    match prop.kind
    case 'B' => BirthFrame(s, st, o, prop);
    case 'D' => DeathFrame(s, st, o, prop);
    case 'M' => MoveFrame(s, st, o, prop);
    case 'E' => ExchangeFrame(s, st, o, prop);
    case _ =>
  }

  /** processProposal bumps exactly one queue counter for a birth, a death
      or an exchange, and none for a move or an unknown tag. */
  lemma ProposalTally(s: SamplerState, st: Settings, o: Orientation, rows: nat, cols: nat, prop: AtomicProposal)
    requires st.lambda > 0.0 && Inv(s, o.cellOf, rows, cols) && Ready(s, o.cellOf, prop)
    ensures IsCounted(prop) ==> OneBumped(s.counters, ProposalStep(s, st, o, prop).counters)
    ensures !IsCounted(prop) ==> ProposalStep(s, st, o, prop).counters == s.counters
    ensures Tally(ProposalStep(s, st, o, prop).counters) == Tally(s.counters) + (if IsCounted(prop) then 1 else 0)
  {
    if prop.kind == 'E' {
      HeldMass(s, o.cellOf, rows, cols, prop.atom1);
      HeldMass(s, o.cellOf, rows, cols, prop.atom2);
      var outcome := ExchangeDraw(s, st, o, prop);
      if outcome.Some? {
        ExchangeEffectFacts(s.domain[prop.atom1], s.domain[prop.atom2], outcome.value);
      }
    }
  }

  /** Readiness depends only on the positions the proposal touches. */
  lemma ReadyKept(s: SamplerState, t: SamplerState, cellOf: nat -> Cell, p: AtomicProposal)
    requires Ready(s, cellOf, p)
    requires forall q | q in Touched(p) :: Held(t, q) == Held(s, q) && Free(t, q) == Free(s, q)
    ensures Ready(t, cellOf, p)
  {
  }

  /** Running the first i proposals of a ready batch keeps the invariant,
      leaves every later proposal ready, and bumps the counters once per
      birth, death and exchange among them. */
  lemma {:induction false} RunBatchKeepsInv(s: SamplerState, st: Settings, o: Orientation, rows: nat, cols: nat,
                                            batch: seq<AtomicProposal>, i: nat)
    requires st.lambda > 0.0 && Inv(s, o.cellOf, rows, cols) && BatchReady(s, o.cellOf, batch)
    requires i <= |batch|
    ensures Inv(RunBatch(s, st, o, batch[..i]), o.cellOf, rows, cols)
    ensures forall j | i <= j < |batch| :: Ready(RunBatch(s, st, o, batch[..i]), o.cellOf, batch[j])
    ensures Tally(RunBatch(s, st, o, batch[..i]).counters) == Tally(s.counters) + CountedIn(batch[..i])
  {
    if i > 0 {
      RunBatchKeepsInv(s, st, o, rows, cols, batch, i - 1);
      var before := RunBatch(s, st, o, batch[..i - 1]);
      assert batch[..i][..i - 1] == batch[..i - 1];
      assert batch[..i][i - 1] == batch[i - 1];
      ProposalKeepsInv(before, st, o, rows, cols, batch[i - 1]);
      ProposalFrame(before, st, o, batch[i - 1]);
      ProposalTally(before, st, o, rows, cols, batch[i - 1]);
      forall j | i <= j < |batch|
        ensures Ready(RunBatch(s, st, o, batch[..i]), o.cellOf, batch[j])
      {
        assert Touched(batch[i - 1]) !! Touched(batch[j]);
        ReadyKept(before, RunBatch(s, st, o, batch[..i]), o.cellOf, batch[j]);
      }
    }
  }

  /** Under the invariant no cell of the matrix is negative. */
  lemma InvNonNegative(s: SamplerState, cellOf: nat -> Cell, rows: nat, cols: nat)
    requires Inv(s, cellOf, rows, cols)
    ensures forall c | c in s.matrix :: s.matrix[c] >= 0.0
  {
    AgreesNonNegative(s.matrix, Live(s), cellOf);
  }

  /** flushCache commits every staged insert, and every committed atom
      afterwards was either committed before and not erased, or staged. */
  lemma FlushCommits(s: SamplerState)
    ensures forall i | 0 <= i < |s.insertCache| :: s.insertCache[i].pos in FlushStep(s).domain
    ensures forall p | p in FlushStep(s).domain ::
              (p in s.domain && p !in s.eraseCache) || exists i | 0 <= i < |s.insertCache| :: s.insertCache[i].pos == p
  {
    InsertMapKeys(s.insertCache);
    FlushedContents(s.domain, s.eraseCache, s.insertCache);
  }

  /** flushCache keeps the invariant: the committed atoms become exactly
      the atoms that were live. */
  lemma FlushKeepsInv(s: SamplerState, cellOf: nat -> Cell, rows: nat, cols: nat)
    requires Inv(s, cellOf, rows, cols)
    ensures Inv(FlushStep(s), cellOf, rows, cols)
    ensures Live(FlushStep(s)) == Live(s)
  {
    FlushedNothing(Live(s));
  }
}
