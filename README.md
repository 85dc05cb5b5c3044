# CoGAPS sampler engine: proposal bookkeeping

This project models the core of CoGAPS's reversible-jump MCMC engine, the
class template `GibbsSampler` in `src/GibbsSampler.h`. It covers:

- the `update` round loop;
- `processProposal`, which dispatches on the tags `'B'`, `'D'`, `'M'` and `'E'`;
- the four proposal kinds `birth`, `death`, `move` and `exchange`;
- the exchange helpers `updateAtomMass` and `acceptExchange`;
- the two `gibbsMass` overloads.

For each proposal it models what happens to four kinds of state:

- the factor matrix (`mMatrix`);
- the atomic domain: its committed atoms and the staged `cacheInsert` and
  `cacheErase` calls;
- the AP matrix updates (`updateAPMatrix`), kept as a log;
- the proposal queue's accept/reject counters.

## Layout

- `gaps_types.dfy` (module `GapsTypes`): the shared types.
  - Cells, staged operations, counters and proposals.
  - Three bundles that stand in for the foreign routines:
    - `Numerics`: log, the CDFs and the densities;
    - `Rng`: a proposal's random draws;
    - `Orientation`: what the amplitude or pattern specialisation supplies
      (`getRow`/`getCol`, `canUseGibbs`, `alphaParameters`, `computeDeltaLL`).
- `gibbs_math.dfy` (module `GibbsMath`): the two `gibbsMass` overloads as
  pure functions.
- `proposals.dfy` (module `Proposals`): the per-proposal decisions as pure
  functions:
  - the birth mass;
  - the rebirth mass and its test;
  - the move test;
  - the exchange outcome, including the Metropolis-Hastings fallback;
  - the arithmetic of `updateAtomMass` and `acceptExchange`.
- `atomic_domain.dfy` (module `AtomicDomain`): the atomic domain as a map from
  position to mass.
  - Staged inserts and erases are committed by a flush.
  - Each cell's mass is the sum of the masses of its atoms.
  - The consistency invariant ties the matrix to the atoms.
- `sampler_steps.dfy` (module `SamplerSteps`): each operation as a step
  function on a value state.
  - The invariant: every live atom carries at least epsilon, every matrix
    cell holds the total mass of its live atoms, and the matrix keeps its
    shape.
  - Lemmas prove that each step, a whole batch and the flush keep the
    invariant.
  - Frame lemmas prove that a proposal leaves other positions alone.
  - Tally lemmas prove that each birth, death and exchange bumps exactly one
    counter.
- `gibbs_sampler.dfy` (module `Sampler`): the class `GibbsSampler`, whose
  fields the methods update in place.
  - `Birth`, `Death`, `Move`, `Exchange`, `UpdateAtomMass`, `AcceptExchange`,
    `ProcessProposal`, `FlushCache` and the `Update` loop are written as in
    the source.
  - Each method except `UpdateAtomMass` is proved to produce exactly the
    state its step function gives. For `Update` this is the state after the
    rounds it ran (`Rounds`).
  - `UpdateAtomMass` has no step function of its own: its ensures give the
    new state directly, in both branches.
  - `ProcessQueue` is the loop over the queue.
  - `Round` is one pass of the update loop's body.
- `sampler_facts.dfy` (module `SamplerFacts`): what each proposal promises,
  stated on the step functions:
  - what is staged;
  - how each touched cell and the AP log move;
  - which counter is bumped;
  - what the atomic domain holds once flushed.

## Model

| member | source | states |
|---|---|---|
| Sampler.GibbsSampler.Update | src/GibbsSampler.h:257-285 | The new state is exactly the state after the rounds it ran: each round processes in order the batch populate gives for the committed domain, then flushes. history is the concatenation of those batches. It stops at the first round that reaches nSteps: `\|history\| >= nSteps`, the rounds before the last processed fewer than nSteps, and no round runs iff nSteps = 0. Afterwards the invariant holds, nothing is staged or queued, and the counters have grown by exactly one per birth, death and exchange processed. |
| Sampler.GibbsSampler.Round | src/GibbsSampler.h:264-283 | One pass of the loop body. The batch is what populate gives for the committed domain. The new state is the next round's state, and the history grows by the batch. The invariant holds, nothing is staged or queued, and the counters grow by the batch's births, deaths and exchanges. |
| Sampler.RoundsKeepInv | src/GibbsSampler.h:259-284 | From a state that meets the invariant with nothing staged, after any number k of rounds the invariant holds and nothing is staged. At least k proposals have been processed, and the counters have grown by one per birth, death and exchange among them. |
| Sampler.RoundKeepsInv | src/GibbsSampler.h:276-283 | One round on a batch that fits the committed domain keeps the invariant, leaves nothing staged and counts each birth, death and exchange of the batch once. |
| Sampler.GibbsSampler.ProcessQueue | src/GibbsSampler.h:276-280 | The batch loop, run in order: the new state is the batch's steps applied in order. The invariant is kept. The counters grow by the number of births, deaths and exchanges in the batch. |
| Sampler.GibbsSampler.FlushCache | src/GibbsSampler.h:282 | The new state is the flush of the staged inserts and erases into the committed domain. |
| SamplerSteps.FlushKeepsInv | src/GibbsSampler.h:282 | The flush keeps the invariant and leaves the live atoms unchanged. |
| SamplerSteps.FlushCommits | src/GibbsSampler.h:282 | After the flush, every staged insert's position is committed. Every committed atom was either committed and not erased, or staged. |
| SamplerSteps.InvNonNegative | src/GibbsSampler.h:416 | Under the invariant no matrix cell is negative. |
| SamplerSteps.RunBatchKeepsInv | src/GibbsSampler.h:276-280 | In a ready batch of pairwise disjoint proposals, the first i proposals keep the invariant and leave every later proposal ready. The counters grow by the number of births, deaths and exchanges among them. |
| Sampler.FitsReady | src/GibbsSampler.h:264-265 | With nothing staged, a batch that fits the committed domain is ready to be processed. |
| Sampler.GibbsSampler.ProcessProposal | src/GibbsSampler.h:351-370 | Dispatches on the tag to birth, death, move or exchange, and does nothing for any other tag. The new state is the matching step, and the invariant is kept. |
| SamplerSteps.ProposalKeepsInv | src/GibbsSampler.h:351-370 | Every ready proposal keeps the invariant. |
| SamplerSteps.ProposalFrame | src/GibbsSampler.h:351-370 | A proposal leaves every position outside its own as it was, whether held or free. |
| SamplerSteps.ProposalTally | src/GibbsSampler.h:351-370 | A birth, death or exchange bumps exactly one of the four counters by one and leaves the other three alone, so the counters' total grows by one. A move or an unknown tag leaves the counters unchanged. |
| Sampler.GibbsSampler.Birth | src/GibbsSampler.h:374-404 | The new state is the birth step of the old state, with the mass drawn as the source draws it. |
| Proposals.BirthMass | src/GibbsSampler.h:381-390 | Without Gibbs eligibility, the mass is the Exponential(lambda) draw. With it, the mass is at least epsilon iff the Gibbs draw is flagged valid, and an accepted Gibbs mass is at most maxGibbsMass/lambda. |
| SamplerFacts.BirthOutcome | src/GibbsSampler.h:392-403 | A birth is accepted iff its mass is at least epsilon. On accept: exactly one insert is staged at birthPos with that mass, that cell grows by the mass and no other cell changes, AP is updated with the same mass, and acceptBirth + 1. On reject: the state is unchanged except rejectBirth + 1. |
| SamplerFacts.BirthLive | src/GibbsSampler.h:395 | After an accepted birth, the flushed domain is the old one with the new atom at birthPos. |
| SamplerSteps.BirthKeepsInv | src/GibbsSampler.h:374-404 | A birth on a free position keeps the invariant. |
| Sampler.GibbsSampler.Death | src/GibbsSampler.h:408-445 | The new state is the death step of the old state: the clamped withdrawal, the rebirth mass, then the rebirth test. |
| Proposals.RebirthMass | src/GibbsSampler.h:420-429 | The rebirth mass is the Gibbs mass when the cell is Gibbs eligible and the draw is valid, and the atom's own mass otherwise. It is at least epsilon when the atom's mass is, and at most max(atom mass, maxGibbsMass/lambda). |
| SamplerFacts.DeathOutcome | src/GibbsSampler.h:415-444 | The cell holds at least the atom's mass, so the clamp at zero never bites, and the rebirth mass is at least epsilon. On rebirth: the atom's mass is replaced, the cell ends at old − m + rebirth, AP gets −m then +rebirth, nothing is staged, and rejectDeath + 1. Otherwise: exactly one erase of the atom is staged, the cell ends at old − m, and acceptDeath + 1. No other cell changes. |
| SamplerFacts.DeathLive | src/GibbsSampler.h:435-442 | Once flushed, the domain holds the reborn atom with its new mass, or no longer holds the atom. |
| SamplerSteps.DeathKeepsInv | src/GibbsSampler.h:408-445 | A death of a held atom keeps the invariant. |
| Sampler.GibbsSampler.Move | src/GibbsSampler.h:448-471 | The new state is the move step of the old state. |
| SamplerFacts.MoveOutcome | src/GibbsSampler.h:456-470 | On accept: the atom goes to moveDest with its mass unchanged, the origin cell loses exactly the mass, the destination cell gains it and their sum is kept, no other cell changes, AP sees −m and +m, and no counter moves. On reject: nothing changes. |
| SamplerFacts.MoveLive | src/GibbsSampler.h:463 | After an accepted move, the flushed domain holds the atom at the destination, with the same mass, instead of at the origin. |
| SamplerSteps.MoveKeepsInv | src/GibbsSampler.h:448-471 | A move of a held atom to a free position in another cell keeps the invariant. |
| Sampler.GibbsSampler.Exchange | src/GibbsSampler.h:476-525 | The new state is the exchange step of the old state: a valid Gibbs pair draw, otherwise the gamma fallback, the special case, the Metropolis-Hastings test, or a rejection. |
| Proposals.FallbackDelta | src/GibbsSampler.h:503 | The delta gives the larger atom the new mass (the second atom on a tie) and keeps the sum. For a new mass in [0, m1 + m2], it lies in [−m1, m2]. |
| Proposals.PriorOldMass | src/GibbsSampler.h:504 | The mass compared is one of the two masses: the larger when the new mass is above half the total, the smaller otherwise. |
| Proposals.ExchangeOutcomeFacts | src/GibbsSampler.h:489-524 | A valid pair Gibbs draw is taken as is. Otherwise, any accepted delta is the fallback delta. pOld = 0 with pNew ≠ 0 is accepted outright. pOld ≠ 0 with pNew = 0 is rejected. When both masses are non-negative and the fallback mass lies in [0, m1 + m2], any accepted delta lies in [−m1, m2]. |
| SamplerFacts.ExchangeConserves | src/GibbsSampler.h:476-525 | For an exchange of two held atoms in different cells, the counters' total grows by one. A rejected exchange leaves the matrix, the atoms, the caches and AP as they were, and only rejectDeath + 1. An accepted one keeps the two cells' total, up to an erased atom's remnant below epsilon, for the Gibbs delta and for a fallback mass in [0, m1 + m2]. The total is exact when no atom is erased. An accepted exchange that erases an atom counts exactly one accepted death; one that erases none counts one rejected death; no other counter moves. |
| SamplerSteps.ExchangeKeepsInv | src/GibbsSampler.h:476-525 | An exchange of two held atoms in different cells keeps the invariant. |
| Sampler.GibbsSampler.UpdateAtomMass | src/GibbsSampler.h:529-540 | Returns true iff mass + delta ≥ epsilon. If true, the mass becomes mass + delta and nothing else changes. If false, the mass is left alone, exactly one erase is staged and acceptDeath + 1. |
| Proposals.MassUpdate | src/GibbsSampler.h:532-539 | None iff mass + delta < epsilon; otherwise the new mass, which is at least epsilon. |
| Sampler.GibbsSampler.AcceptExchange | src/GibbsSampler.h:544-572 | The new state is the acceptExchange step of the old state, for any d1. |
| Proposals.ExchangeEffectFacts | src/GibbsSampler.h:550-566 | If both updates are kept, the deltas cancel and rejectDeath + 1. Under the entry assertions, both are kept with d2 = −d1. When both atoms carry at least epsilon, at least one survives and exactly one counter moves. |
| SamplerFacts.AcceptExchangeOutcome | src/GibbsSampler.h:544-572 | Each cell changes by exactly the delta logged for it in AP, no other cell changes, at most one atom is erased. If an atom is erased, only acceptDeath moves, by one; otherwise only rejectDeath moves, by one. For d1 in [−m1, m2], the two cells lose less than epsilon in total. Under the entry assertions: both atoms are resized in place, the atoms' total mass and the cells' total are kept, and rejectDeath + 1. |
| SamplerSteps.AcceptExchangeKeepsInv | src/GibbsSampler.h:544-572 | acceptExchange keeps the invariant for every d1. |
| GibbsMath.GibbsMass | src/GibbsSampler.h:575-595 | (0, false) when the scaled s is at most epsilon or pLower ≥ 1. Otherwise the mass is the sample capped at maxGibbsMass/lambda, so it never exceeds the cap. The flag is true iff the mass is at least epsilon. |
| GibbsMath.GibbsMassPair | src/GibbsSampler.h:597-619 | The flag is true iff the scaled s is above epsilon and neither tail test (pLower > 0.95, pUpper < 0.05) fails. When false, the delta is 0. When true, the delta is the sample when it lies in [−m1, m2], m2 when the sample is above m2, and min(−m1, m2) when it is below −m1: the clamp min(max(−m1, sample), m2). |
| Sampler.GibbsSampler.constructor | src/GibbsSampler.h:195-214 | A fresh sampler: an all-zero matrix of the given shape, no atoms, zero counters, maxGibbsMass 100, annealing temperature 1, and the invariant. |
| Sampler.GibbsSampler.SetMaxGibbsMass | src/GibbsSampler.h:239-242 | Sets maxGibbsMass. |
| Sampler.GibbsSampler.SetAnnealingTemp | src/GibbsSampler.h:245-248 | Sets the annealing temperature. |

## Left out

- **Fixed-width integers.** The `unsigned` counters `n` and `nSteps` of
  `update` (lines 257-266) and the `uint64_t` atom positions are Dafny
  `nat`s, so wrap-around is not modelled: in the source `n += mQueue.size()`
  could wrap when nSteps is within one batch of 2^32.
- **Floating point.** Masses, probabilities and the matrix are Dafny `real`s.
  `float` rounding, infinities and NaN are not modelled.
  - The one place the source relies on an infinity is `pOld / pNew` with
    pOld ≠ 0 and pNew = 0 (line 516). That ratio makes the test at line 518
    fail, so the model writes that case out as a rejection and does not
    divide.
- **The factor matrix** is a `map` from cell to value with exactly the cells
  of a rows × cols matrix, not the source's dense `Matrix`/`array2`.
  - With a map, each proposal's effect on the matrix is one functional
    update.
  - Aliasing between matrix rows does not arise.
- **OpenMP parallelism** (lines 276-280). The batch is processed in order.
  - Proposals in a batch touch pairwise disjoint positions, as the proposal
    queue promises.
  - The model does not prove the claim that different orders give the same
    result.
- **Foreign routines become parameters.**
  - The random draws (`uniform`, `exponential`, `inverseNormSample`,
    `inverseGammaSample`) are the proposal's `Rng` values.
  - `p_norm`, `p_gamma`, `d_gamma`, `log` and `1/sqrt` come from `Numerics`.
  - The specialisation's `getRow`/`getCol`, `canUseGibbs`, `alphaParameters`
    and `computeDeltaLL` come from `Orientation`.
  - Their bodies are in files that are not part of this model.
- **`updateAPMatrix`** is a log of (cell, delta) calls. The AP matrix itself,
  `sync` and `recalculateAPMatrix` are not modelled.
- **The proposal queue's `populate`** is a function of the round and the
  committed domain.
  - It is assumed to return a non-empty batch whose proposals fit the domain
    and touch disjoint positions.
  - The queue's own logic is not part of this model.
- **`mDomain.resetCache`** (line 265) only sizes buffers, so it is not
  modelled.
- **The atomic domain's own implementation** (bins, the vector layout,
  `cacheInsert`/`cacheErase`/`flushCache` internals) is not part of this
  model. The domain is a map from position to mass with staged sequences.
- **`setSparsity`** (lines 225-236) computes lambda from the data mean with
  `sqrt`, and **`chi2`** computes a log-likelihood. Both are numerics over
  the data matrices.
  - lambda is a constructor parameter here.
  - The data, uncertainty and AP matrices, and the constructor's building of
    them from external data, are not modelled.
- **`setMatrix`** (lines 251-254) replaces the whole matrix with one from
  outside. It is not modelled, because it does not keep the matrix-atom
  invariant.
- **Archive serialisation** and the `GAPS_DEBUG` average-queue statistic
  (lines 269-273) are I/O and diagnostics.
- **The `GAPS_ASSERT` checks** are handled in two ways.
  - Lines 456 and 484 (distinct cells for move and exchange) are the only
    ones made preconditions: of the invariant lemmas and of `Exchange`. The
    proposal queue guarantees them.
  - Lines 550-551 and 557 (acceptExchange's entry assertions) are instead
    the hypotheses under which `AcceptExchangeOutcome` and
    `ExchangeEffectFacts` state their strongest conclusions. The model
    handles every d1.
- SamplerFacts.AcceptExchangeOutcome: for a delta within [−m1, m2] that
  erases an atom, the two cells' total may drop by the erased remnant (less
  than epsilon). Sums are claimed equal only under the entry assertions,
  because that is what the code does when they fail.
