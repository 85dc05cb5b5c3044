/** The generic sampler engine (GibbsSampler): the update round loop and the
    processing of birth, death, move and exchange proposals against the
    factor matrix, the staged atomic-domain cache, the AP update log and the
    queue's accept/reject counters. Every method is proved to produce exactly
    the state its step function in SamplerSteps describes, and the sampler's
    invariant to survive every proposal, every round and the whole update. */
module Sampler {
  import opened GapsTypes
  import opened GibbsMath
  import opened Proposals
  import opened AtomicDomain
  import opened SamplerSteps

  /** What the proposal queue guarantees of one proposal against the
      committed domain it was drawn from: births and move destinations land on
      free positions, deaths, moves and exchanges borrow committed atoms, and a
      move or an exchange spans two different cells. */
  predicate FitsDomain(cellOf: nat -> Cell, d: map<nat, real>, p: AtomicProposal)
  {
    match p.kind
    case 'B' => p.birthPos !in d
    case 'D' => p.atom1 in d
    case 'M' => p.atom1 in d && p.moveDest !in d && cellOf(p.atom1) != cellOf(p.moveDest)
    case 'E' => p.atom1 in d && p.atom2 in d && cellOf(p.atom1) != cellOf(p.atom2)
    case _ => true
  }

  /** A populated batch: at least one proposal, each fits the domain, and no
      two proposals touch the same position. */
  predicate BatchFits(cellOf: nat -> Cell, d: map<nat, real>, batch: seq<AtomicProposal>)
  {
    && |batch| >= 1
    && (forall i | 0 <= i < |batch| :: FitsDomain(cellOf, d, batch[i]))
    && (forall i, j | 0 <= i < j < |batch| :: Touched(batch[i]) !! Touched(batch[j]))
  }

  /** With nothing staged, a batch that fits the committed domain is ready to
      be processed in order. */
  lemma FitsReady(s: SamplerState, cellOf: nat -> Cell, batch: seq<AtomicProposal>)
    requires s.insertCache == [] && s.eraseCache == []
    requires BatchFits(cellOf, s.domain, batch)
    ensures BatchReady(s, cellOf, batch)
  {
    assert InsertMap(s.insertCache) == map[];
    forall i | 0 <= i < |batch|
      ensures Ready(s, cellOf, batch[i])
    {
      assert FitsDomain(cellOf, s.domain, batch[i]);
    }
  }

  /** One round from a state with nothing staged, on a batch that fits its
      committed domain, keeps the invariant, leaves nothing staged and counts
      each birth, death and exchange of the batch once. */
  lemma RoundKeepsInv(r: SamplerState, st: Settings, o: Orientation, rows: nat, cols: nat, batch: seq<AtomicProposal>)
    requires st.lambda > 0.0 && Inv(r, o.cellOf, rows, cols) && r.insertCache == [] && r.eraseCache == []
    requires BatchFits(o.cellOf, r.domain, batch)
    ensures var t := FlushStep(RunBatch(r, st, o, batch));
            && Inv(t, o.cellOf, rows, cols) && t.insertCache == [] && t.eraseCache == []
            && Tally(t.counters) == Tally(r.counters) + CountedIn(batch)
  {
    FitsReady(r, o.cellOf, batch);
    RunBatchKeepsInv(r, st, o, rows, cols, batch, |batch|);
    assert batch[..|batch|] == batch;
    FlushKeepsInv(RunBatch(r, st, o, batch), o.cellOf, rows, cols);
  }

  /** Every round keeps the invariant and leaves nothing staged, processes
      at least one proposal, and counts each birth, death and exchange it
      processes once. */
  lemma {:induction false} RoundsKeepInv(s: SamplerState, st: Settings, o: Orientation, rows: nat, cols: nat,
                                         populate: (nat, map<nat, real>) -> seq<AtomicProposal>, k: nat)
    requires st.lambda > 0.0 && Inv(s, o.cellOf, rows, cols) && s.insertCache == [] && s.eraseCache == []
    requires forall round: nat, d: map<nat, real> :: BatchFits(o.cellOf, d, populate(round, d))
    ensures var t := Rounds(s, st, o, populate, k);
            && Inv(t, o.cellOf, rows, cols) && t.insertCache == [] && t.eraseCache == []
            && |RoundsHistory(s, st, o, populate, k)| >= k
            && Tally(t.counters) == Tally(s.counters) + CountedIn(RoundsHistory(s, st, o, populate, k))
  {
    if k > 0 {
      var j := k - 1;
      RoundsKeepInv(s, st, o, rows, cols, populate, j);
      RoundsNext(s, st, o, populate, j);
      var r := Rounds(s, st, o, populate, j);
      var batch := populate(j, r.domain);
      assert BatchFits(o.cellOf, r.domain, batch);
      RoundKeepsInv(r, st, o, rows, cols, batch);
      CountedInAppend(RoundsHistory(s, st, o, populate, j), batch);
    }
  }

  class GibbsSampler {
    /** The shape of the factor matrix being sampled. */
    const rows: nat
    const cols: nat
    /** The factor matrix being sampled (mMatrix): one entry per cell. */
    var matrix: map<Cell, real>
    /** Committed atoms of the atomic domain: position to mass. */
    var domain: map<nat, real>
    /** Staged cacheInsert and cacheErase calls of the running batch. */
    var insertCache: seq<StagedInsert>
    var eraseCache: seq<nat>
    /** The proposal queue's current batch and its counters. */
    var queue: seq<AtomicProposal>
    var counters: Counters
    /** Every updateAPMatrix call so far. */
    var apLog: seq<ApUpdate>
    var lambda: real
    var maxGibbsMass: real
    var annealingTemp: real
    /** The amplitude or pattern specialisation and the numerical routines. */
    const orient: Orientation
    const math: Numerics

    /** The sampler's state as a value. */
    function State(): SamplerState
      reads this`matrix, this`domain, this`insertCache, this`eraseCache, this`apLog, this`counters
    {
      SamplerState(matrix, domain, insertCache, eraseCache, apLog, counters)
    }

    /** The scalars the proposals read. */
    function Current(): Settings
      reads this`lambda, this`maxGibbsMass, this`annealingTemp
    {
      Settings(lambda, maxGibbsMass, annealingTemp, math)
    }

    /** The sampler's invariant: a positive lambda, and the matrix, the atoms
        and the caches as SamplerSteps.Inv demands. */
    ghost predicate Valid()
      reads this`lambda, this`matrix, this`domain, this`insertCache, this`eraseCache, this`apLog, this`counters
    {
      lambda > 0.0 && Inv(State(), orient.cellOf, rows, cols)
    }

    /** Between rounds: nothing staged, the queue empty. */
    predicate Idle()
      reads this`queue, this`eraseCache, this`insertCache
    {
      insertCache == [] && eraseCache == [] && queue == []
    }

    /** A fresh sampler: an all-zero rows x cols matrix, no atoms, nothing
        staged, zero counters, maxGibbsMass 100 and annealing temperature 1;
        lambda is the value the default setSparsity(0.01) computes. */
    constructor (rows: nat, cols: nat, orient: Orientation, math: Numerics, lambda: real)
      requires lambda > 0.0
      requires forall p: nat :: orient.cellOf(p).row < rows && orient.cellOf(p).col < cols
      ensures Valid() && Idle()
      ensures this.rows == rows && this.cols == cols
      ensures forall c | c in matrix :: matrix[c] == 0.0
      ensures domain == map[] && counters == Counters(0, 0, 0, 0) && apLog == []
      ensures this.orient == orient && this.math == math
      ensures this.lambda == lambda && maxGibbsMass == 100.0 && annealingTemp == 1.0
    {
      this.rows, this.cols := rows, cols;
      matrix := map r: nat, k: nat | r < rows && k < cols :: Cell(r, k) := 0.0;
      domain := map[];
      insertCache, eraseCache := [], [];
      queue := [];
      counters := Counters(0, 0, 0, 0);
      apLog := [];
      this.lambda := lambda;
      maxGibbsMass, annealingTemp := 100.0, 1.0;
      this.orient, this.math := orient, math;
      new;
      forall c: Cell
        ensures c in matrix <==> c.row < rows && c.col < cols
      {
        if c.row < rows && c.col < cols {
          assert c == Cell(c.row, c.col);
        }
      }
      FlushedNothing(map[]);
    }

    method SetMaxGibbsMass(max: real)
      modifies this`maxGibbsMass
      ensures maxGibbsMass == max
    {
      maxGibbsMass := max;
    }

    method SetAnnealingTemp(temp: real)
      modifies this`annealingTemp
      ensures annealingTemp == temp
    {
      annealingTemp := temp;
    }

    /** updateAPMatrix(row, col, delta): recorded in the AP log. */
    method UpdateAPMatrix(c: Cell, delta: real)
      modifies this`apLog
      ensures apLog == old(apLog) + [ApUpdate(c, delta)]
    {
      apLog := apLog + [ApUpdate(c, delta)];
    }

    /** birth: a new atom at birthPos, with the Gibbs or the prior mass,
        accepted iff the mass is at least Epsilon. */
    method Birth(prop: AtomicProposal)
      requires lambda > 0.0
      modifies this`insertCache, this`matrix, this`apLog, this`counters
      ensures State() == BirthStep(old(State()), Current(), orient, prop)
    {
      var c := orient.cellOf(prop.birthPos);

      // the Gibbs conditional when the cell allows it, the prior otherwise
      var mass := 0.0;
      if orient.canUseGibbs(c, apLog) {
        var alpha := orient.alphaParameters(c, apLog);
        mass := GibbsMass(alpha, annealingTemp, lambda, maxGibbsMass, math, prop.rng.inverseNormSample).mass;
      } else {
        mass := prop.rng.exponential(lambda);
      }
      assert mass == BirthDraw(State(), Current(), orient, prop);

      // a mass below Epsilon is rejected
      if mass >= Epsilon {
        insertCache := insertCache + [StagedInsert(prop.birthPos, mass)];
        matrix := Bump(matrix, c, mass);
        UpdateAPMatrix(c, mass);
        counters := counters.(acceptBirth := counters.acceptBirth + 1);
      } else {
        counters := counters.(rejectBirth := counters.rejectBirth + 1);
      }
    }

    /** death: the atom's mass is taken out of its cell (clamped at zero),
        then a rebirth at the same position is tried with the original or the
        Gibbs mass; accepting the rebirth restores the cell with the new mass,
        rejecting it stages the erase of the atom. */
    method Death(prop: AtomicProposal)
      requires lambda > 0.0 && prop.atom1 in domain
      modifies this`domain, this`eraseCache, this`matrix, this`apLog, this`counters
      ensures State() == DeathStep(old(State()), Current(), orient, prop)
    {
      var c := orient.cellOf(prop.atom1);
      var m := domain[prop.atom1];
      ghost var killed := Removed(State(), c, m);
      ghost var draw := DeathDraw(State(), Current(), orient, prop);

      // take the atom's mass out of its cell
      matrix := Withdraw(matrix, c, m);
      UpdateAPMatrix(c, -1.0 * m);
      assert State() == killed;

      // the atom's own mass, or a valid Gibbs draw
      var rebirthMass := m;
      var alpha := orient.alphaParameters(c, apLog);
      if orient.canUseGibbs(c, apLog) {
        var gMass := GibbsMass(alpha, annealingTemp, lambda, maxGibbsMass, math, prop.rng.inverseNormSample);
        if gMass.valid {
          rebirthMass := gMass.mass;
        }
      }
      assert rebirthMass == draw.0;

      // Metropolis test of the rebirth
      if RebirthAccepted(Current(), rebirthMass, alpha, prop.rng) {
        assert draw.1;
        domain := domain[prop.atom1 := rebirthMass];
        matrix := Bump(matrix, c, rebirthMass);
        UpdateAPMatrix(c, rebirthMass);
        counters := counters.(rejectDeath := counters.rejectDeath + 1);
        assert State() == Reborn(killed, c, prop.atom1, rebirthMass);
      } else {
        assert !draw.1;
        eraseCache := eraseCache + [prop.atom1];
        counters := counters.(acceptDeath := counters.acceptDeath + 1);
        assert State() == Erased(killed, prop.atom1);
      }
    }

    /** move: the atom's whole mass goes from its cell to the destination's
        cell when the Metropolis test passes; otherwise nothing changes. */
    method Move(prop: AtomicProposal)
      requires prop.atom1 in domain
      modifies this`domain, this`matrix, this`apLog
      ensures State() == MoveStep(old(State()), Current(), orient, prop)
    {
      var p, q := prop.atom1, prop.moveDest;
      var c1, c2 := orient.cellOf(p), orient.cellOf(q);
      var m := domain[p];

      var deltaLL := orient.computeDeltaLL(c1, -1.0 * m, c2, m, apLog);
      if MoveAccepted(Current(), deltaLL, prop.rng) {
        domain := (domain - {p})[q := m];
        matrix := Withdraw(matrix, c1, m);
        matrix := Bump(matrix, c2, m);
        UpdateAPMatrix(c1, -1.0 * m);
        UpdateAPMatrix(c2, m);
      }
    }

    /** updateAtomMass: erase the atom (and count an accepted death) when its
        new mass would fall below Epsilon, otherwise add delta to it. */
    method UpdateAtomMass(pos: nat, delta: real) returns (kept: bool)
      requires pos in domain
      modifies this`domain, this`eraseCache, this`counters
      ensures kept <==> old(domain[pos]) + delta >= Epsilon
      ensures kept ==> domain == old(domain)[pos := old(domain[pos]) + delta] &&
                       eraseCache == old(eraseCache) && counters == old(counters)
      ensures !kept ==> domain == old(domain) && eraseCache == old(eraseCache) + [pos] &&
                        counters == old(counters).(acceptDeath := old(counters).acceptDeath + 1)
    {
      if domain[pos] + delta < Epsilon {
        eraseCache := eraseCache + [pos];
        counters := counters.(acceptDeath := counters.acceptDeath + 1);
        return false;
      }
      domain := domain[pos := domain[pos] + delta];
      return true;
    }

    /** acceptExchange: d1 to the first atom, -d1 to the second; an atom that
        would fall below Epsilon is erased and its whole mass leaves its cell
        instead. */
    method AcceptExchange(prop: AtomicProposal, d1: real, c1: Cell, c2: Cell)
      requires prop.atom1 in domain && prop.atom2 in domain
      requires c1 == orient.cellOf(prop.atom1) && c2 == orient.cellOf(prop.atom2) && c1 != c2
      modifies this`domain, this`eraseCache, this`matrix, this`apLog, this`counters
      ensures State() == AcceptExchangeStep(old(State()), orient, prop, d1)
    {
      var a1, a2 := prop.atom1, prop.atom2;
      ghost var s0 := State();
      ghost var r := ExchangeEffect(domain[a1], domain[a2], d1);
      ghost var s1 := FirstExchanged(s0, orient, prop, d1);
      ghost var s2 := Resized(s1, c2, a2, r.mass2, r.delta2);
      var d2 := -1.0 * d1;
      var b1 := UpdateAtomMass(a1, d1);
      assert b1 == r.mass1.Some? && a1 != a2;
      assert domain == s1.domain && eraseCache == s1.eraseCache;
      var b2 := UpdateAtomMass(a2, d2);
      assert b2 == r.mass2.Some?;
      assert domain == s2.domain && eraseCache == s2.eraseCache;

      // an erased atom takes its whole mass out of its cell
      var e1, e2 := d1, d2;
      if !b1 { e1 := -1.0 * domain[a1]; }
      if !b2 { e2 := -1.0 * domain[a2]; }
      assert e1 == r.delta1 && e2 == r.delta2;

      if b1 && b2 {
        counters := counters.(rejectDeath := counters.rejectDeath + 1);
      }
      assert counters == s2.counters;

      matrix := Bump(matrix, c1, e1);
      assert matrix == s1.matrix;
      matrix := Bump(matrix, c2, e2);
      assert matrix == s2.matrix;
      UpdateAPMatrix(c1, e1);
      assert apLog == s1.apLog;
      UpdateAPMatrix(c2, e2);
      assert apLog == s2.apLog;
    }

    /** exchange: mass moves between two atoms in different cells, by the
        Gibbs draw when it is usable and valid, otherwise by the gamma
        Metropolis-Hastings fallback; a rejection only counts a rejected
        death. */
    method Exchange(prop: AtomicProposal)
      requires lambda > 0.0 && prop.atom1 in domain && prop.atom2 in domain
      requires orient.cellOf(prop.atom1) != orient.cellOf(prop.atom2)
      modifies this`domain, this`eraseCache, this`matrix, this`apLog, this`counters
      ensures State() == ExchangeStep(old(State()), Current(), orient, prop)
    {
      var c1, c2 := orient.cellOf(prop.atom1), orient.cellOf(prop.atom2);
      var m1, m2 := domain[prop.atom1], domain[prop.atom2];
      ghost var o := ExchangeDraw(State(), Current(), orient, prop);

      if orient.canUseGibbsPair(c1, c2, apLog) {
        var alpha := orient.alphaParametersPair(c1, c2, apLog);
        var gMass := GibbsMassPair(alpha, m1, m2, annealingTemp, math, prop.rng.inverseNormSample);
        if gMass.valid {
          assert o == Some(gMass.mass);
          AcceptExchange(prop, gMass.mass, c1, c2);
          return;
        }
      }

      var newMass := FallbackNewMass(Current(), m1, m2, prop.rng);
      var delta := FallbackDelta(m1, m2, newMass);
      var pNew := math.dGamma(newMass, 2.0, 1.0 / lambda);
      var pOld := math.dGamma(PriorOldMass(m1, m2, newMass), 2.0, 1.0 / lambda);

      if pOld == 0.0 && pNew != 0.0 {
        assert o == Some(delta);
        AcceptExchange(prop, delta, c1, c2);
        return;
      }

      // pOld != 0 and pNew == 0 make pOld / pNew infinite, and the test fails
      if !(pOld != 0.0 && pNew == 0.0) {
        var deltaLL := orient.computeDeltaLL(c1, delta, c2, -delta, apLog);
        if FallbackAccepted(Current(), pOld, pNew, deltaLL, prop.rng) {
          assert o == Some(delta);
          AcceptExchange(prop, delta, c1, c2);
          return;
        }
      }

      assert o == None;
      counters := counters.(rejectDeath := counters.rejectDeath + 1);
    }

    /** processProposal: dispatch on the type tag; an unknown tag does
        nothing. A ready proposal keeps the invariant. */
    method ProcessProposal(prop: AtomicProposal)
      requires Valid() && Ready(State(), orient.cellOf, prop)
      modifies this`domain, this`insertCache, this`eraseCache, this`matrix, this`apLog, this`counters
      ensures State() == ProposalStep(old(State()), Current(), orient, prop)
      ensures Valid()
    {
      ProposalKeepsInv(State(), Current(), orient, rows, cols, prop);
      match prop.kind
      case 'B' =>
        Birth(prop);
      case 'D' =>
        Death(prop);
      case 'M' =>
        Move(prop);
      case 'E' =>
        Exchange(prop);
      case _ =>
    }

    /** The parallel loop of a round, run in order: every queued proposal is
        processed, the invariant kept and each birth, death and exchange
        counted once. */
    method ProcessQueue()
      requires Valid() && BatchReady(State(), orient.cellOf, queue)
      modifies this`domain, this`insertCache, this`eraseCache, this`matrix, this`apLog, this`counters
      ensures State() == RunBatch(old(State()), Current(), orient, queue)
      ensures Valid()
      ensures Tally(counters) == old(Tally(counters)) + CountedIn(queue)
    {
      ghost var s0 := State();
      var i := 0;
      while i < |queue|
        invariant 0 <= i <= |queue|
        invariant State() == RunBatch(s0, Current(), orient, queue[..i])
        invariant Valid()
      {
        RunBatchKeepsInv(s0, Current(), orient, rows, cols, queue, i);
        ProcessProposal(queue[i]);
        assert queue[..i + 1][..i] == queue[..i];
        i := i + 1;
      }
      assert queue[..i] == queue;
      RunBatchKeepsInv(s0, Current(), orient, rows, cols, queue, i);
    }

    /** flushCache: commit the staged inserts and erases. */
    method FlushCache()
      modifies this`domain, this`insertCache, this`eraseCache
      ensures State() == FlushStep(old(State()))
    {
      domain := Flushed(domain, eraseCache, insertCache);
      insertCache, eraseCache := [], [];
    }

    /** One round of update, the round-th since the state s0: the queue is
        populated against the committed domain, every queued proposal is
        processed, the staged changes are flushed and the queue is cleared.
        The batch it processes extends the history of the earlier rounds. */
    method Round(round: nat, populate: (nat, map<nat, real>) -> seq<AtomicProposal>,
                 ghost s0: SamplerState, ghost done: seq<AtomicProposal>)
      returns (batch: seq<AtomicProposal>)
      requires Valid() && Idle()
      requires State() == Rounds(s0, Current(), orient, populate, round)
      requires done == RoundsHistory(s0, Current(), orient, populate, round)
      requires BatchFits(orient.cellOf, domain, populate(round, domain))
      modifies this`domain, this`insertCache, this`eraseCache, this`matrix, this`apLog, this`counters, this`queue
      ensures Valid() && Idle()
      ensures batch == populate(round, old(domain))
      ensures State() == Rounds(s0, Current(), orient, populate, round + 1)
      ensures done + batch == RoundsHistory(s0, Current(), orient, populate, round + 1)
      ensures Tally(counters) == old(Tally(counters)) + CountedIn(batch)
    {
      ghost var st, r := Current(), State();
      RoundsNext(s0, st, orient, populate, round);
      queue := populate(round, domain);
      batch := queue;
      FitsReady(r, orient.cellOf, queue);
      ProcessQueue();
      ghost var s := State();
      FlushCache();
      FlushKeepsInv(s, orient.cellOf, rows, cols);
      queue := [];
      assert Current() == st && State() == FlushStep(RunBatch(r, st, orient, batch));
    }

    /** update(nSteps): rounds of populate, process, flush and clear until at
        least nSteps proposals have been processed. The new state is that of
        the first rounds whose proposals reach nSteps, history lists those
        proposals in order, and the invariant holds with nothing staged. */
    method Update(nSteps: nat, populate: (nat, map<nat, real>) -> seq<AtomicProposal>)
      returns (ghost history: seq<AtomicProposal>, ghost rounds: nat)
      requires Valid() && Idle()
      requires forall round: nat, d: map<nat, real> :: BatchFits(orient.cellOf, d, populate(round, d))
      modifies this`domain, this`insertCache, this`eraseCache, this`matrix, this`apLog, this`counters, this`queue
      ensures Valid() && Idle()
      ensures State() == Rounds(old(State()), Current(), orient, populate, rounds)
      ensures history == RoundsHistory(old(State()), Current(), orient, populate, rounds)
      ensures |history| >= nSteps
      ensures rounds == 0 <==> nSteps == 0
      ensures rounds > 0 ==> |RoundsHistory(old(State()), Current(), orient, populate, rounds - 1)| < nSteps
      ensures Tally(counters) == old(Tally(counters)) + CountedIn(history)
    {
      ghost var s0, st := State(), Current();
      history := [];
      var n := 0;
      var round := 0;
      while n < nSteps
        invariant queue == [] && Current() == st
        invariant State() == Rounds(s0, st, orient, populate, round)
        invariant history == RoundsHistory(s0, st, orient, populate, round)
        invariant n == |history|
        invariant round == 0 ==> n == 0
        invariant round > 0 ==> |RoundsHistory(s0, st, orient, populate, round - 1)| < nSteps
        decreases nSteps - n
      {
        RoundsKeepInv(s0, st, orient, rows, cols, populate, round);
        ghost var done := history;
        var batch := Round(round, populate, s0, history);
        n := n + |batch|;
        history := history + batch;
        round := round + 1;
        assert RoundsHistory(s0, st, orient, populate, round - 1) == done && |done| < nSteps;
      }
      RoundsKeepInv(s0, st, orient, rows, cols, populate, round);
      rounds := round;
    }
  }
}
