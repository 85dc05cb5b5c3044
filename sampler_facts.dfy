/** What the engine promises of each proposal, stated on the step functions
    the sampler's methods are proved to follow: which atom is staged, erased,
    resized or moved, what the atomic domain holds once flushed, how each
    touched cell of the matrix and the AP log move, and which queue counter
    is bumped. */
module SamplerFacts {
  import opened GapsTypes
  import opened GibbsMath
  import opened Proposals
  import opened AtomicDomain
  import opened SamplerSteps

  /** The matrix keeps its cells, and every cell outside cs its entry. */
  predicate SameOutside(before: map<Cell, real>, after: map<Cell, real>, cs: set<Cell>)
  {
    after.Keys == before.Keys && forall e | e in before && e !in cs :: after[e] == before[e]
  }

  /** birth: accepted iff the drawn mass is at least Epsilon. An accepted
      birth stages exactly one insert, its cell and AP grow by the mass and
      acceptBirth is counted. A rejected birth changes nothing but
      rejectBirth. */
  lemma BirthOutcome(s: SamplerState, st: Settings, o: Orientation, rows: nat, cols: nat, prop: AtomicProposal)
    requires st.lambda > 0.0 && Inv(s, o.cellOf, rows, cols) && Free(s, prop.birthPos)
    ensures var t := BirthStep(s, st, o, prop);
            var mass := BirthDraw(s, st, o, prop);
            var c := o.cellOf(prop.birthPos);
            && c in s.matrix
            && (mass >= Epsilon ==>
                  && t.insertCache == s.insertCache + [StagedInsert(prop.birthPos, mass)]
                  && t.domain == s.domain && t.eraseCache == s.eraseCache
                  && t.matrix[c] == s.matrix[c] + mass && SameOutside(s.matrix, t.matrix, {c})
                  && t.apLog == s.apLog + [ApUpdate(c, mass)]
                  && t.counters == s.counters.(acceptBirth := s.counters.acceptBirth + 1))
            && (mass < Epsilon ==> t == s.(counters := s.counters.(rejectBirth := s.counters.rejectBirth + 1)))
  {
  }

  /** An accepted birth adds the atom to the flushed domain with its mass. */
  lemma BirthLive(s: SamplerState, st: Settings, o: Orientation, prop: AtomicProposal)
    requires st.lambda > 0.0 && BirthDraw(s, st, o, prop) >= Epsilon
    ensures Live(BirthStep(s, st, o, prop)) == Live(s)[prop.birthPos := BirthDraw(s, st, o, prop)]
  {
    var x := StagedInsert(prop.birthPos, BirthDraw(s, st, o, prop));
    FlushedInsert(s.domain, s.eraseCache, s.insertCache, x);
    SetAt(Live(s), Flushed(s.domain, s.eraseCache, s.insertCache + [x]), prop.birthPos);
  }

  /** death: the atom's cell holds at least its mass, so the clamp at zero
      never bites, and the rebirth mass is at least Epsilon. An accepted
      rebirth resizes the atom in place: its cell ends at old - m + rebirth
      and rejectDeath is counted. Otherwise the atom's erase is staged, its
      cell ends at old - m and acceptDeath is counted. No other cell
      changes. */
  lemma DeathOutcome(s: SamplerState, st: Settings, o: Orientation, rows: nat, cols: nat, prop: AtomicProposal)
    requires st.lambda > 0.0 && Inv(s, o.cellOf, rows, cols) && Held(s, prop.atom1)
    ensures var t := DeathStep(s, st, o, prop);
            var c := o.cellOf(prop.atom1);
            var m := s.domain[prop.atom1];
            var draw := DeathDraw(s, st, o, prop);
            && c in s.matrix && s.matrix[c] >= m
            && draw.0 >= Epsilon
            && SameOutside(s.matrix, t.matrix, {c}) && t.insertCache == s.insertCache
            && (draw.1 ==>
                  && t.domain == s.domain[prop.atom1 := draw.0] && t.eraseCache == s.eraseCache
                  && t.matrix[c] == s.matrix[c] - m + draw.0
                  && t.apLog == s.apLog + [ApUpdate(c, -1.0 * m), ApUpdate(c, draw.0)]
                  && t.counters == s.counters.(rejectDeath := s.counters.rejectDeath + 1))
            && (!draw.1 ==>
                  && t.domain == s.domain && t.eraseCache == s.eraseCache + [prop.atom1]
                  && t.matrix[c] == s.matrix[c] - m
                  && t.apLog == s.apLog + [ApUpdate(c, -1.0 * m)]
                  && t.counters == s.counters.(acceptDeath := s.counters.acceptDeath + 1))
  {
    HeldMass(s, o.cellOf, rows, cols, prop.atom1);
  }

  /** After a death the flushed domain holds the reborn atom with its new
      mass, or no longer holds the atom. */
  lemma DeathLive(s: SamplerState, st: Settings, o: Orientation, prop: AtomicProposal)
    requires st.lambda > 0.0 && Held(s, prop.atom1)
    ensures var draw := DeathDraw(s, st, o, prop);
            && (draw.1 ==> Live(DeathStep(s, st, o, prop)) == Live(s)[prop.atom1 := draw.0])
            && (!draw.1 ==> Live(DeathStep(s, st, o, prop)) == Live(s) - {prop.atom1})
  {
    var k := prop.atom1;
    var draw := DeathDraw(s, st, o, prop);
    if draw.1 {
      FlushedSet(s.domain, s.eraseCache, s.insertCache, k, draw.0);
      SetAt(Live(s), Flushed(s.domain[k := draw.0], s.eraseCache, s.insertCache), k);
    } else {
      FlushedErase(s.domain, s.eraseCache, s.insertCache, k);
      DroppedAt(Live(s), Flushed(s.domain, s.eraseCache + [k], s.insertCache), k);
    }
  }

  /** move: an accepted move takes the atom's whole, unchanged mass to the
      free destination; the origin cell loses the mass, the destination cell
      gains it, their sum is kept and AP sees both changes. A rejected move
      changes nothing. */
  lemma MoveOutcome(s: SamplerState, st: Settings, o: Orientation, rows: nat, cols: nat, prop: AtomicProposal)
    requires Inv(s, o.cellOf, rows, cols) && Held(s, prop.atom1) && Free(s, prop.moveDest)
    requires o.cellOf(prop.atom1) != o.cellOf(prop.moveDest)
    ensures var t := MoveStep(s, st, o, prop);
            var p, q := prop.atom1, prop.moveDest;
            var c1, c2 := o.cellOf(p), o.cellOf(q);
            var m := s.domain[p];
            && c1 in s.matrix && c2 in s.matrix
            && (MoveDraw(s, st, o, prop) ==>
                  && t.domain == (s.domain - {p})[q := m]
                  && t.insertCache == s.insertCache && t.eraseCache == s.eraseCache
                  && t.matrix[c1] == s.matrix[c1] - m && t.matrix[c2] == s.matrix[c2] + m
                  && t.matrix[c1] + t.matrix[c2] == s.matrix[c1] + s.matrix[c2]
                  && SameOutside(s.matrix, t.matrix, {c1, c2})
                  && t.apLog == s.apLog + [ApUpdate(c1, -1.0 * m), ApUpdate(c2, m)]
                  && t.counters == s.counters)
            && (!MoveDraw(s, st, o, prop) ==> t == s)
  {
    HeldMass(s, o.cellOf, rows, cols, prop.atom1);
  }

  /** After an accepted move the flushed domain holds the atom, with the
      same mass, at the destination instead of the origin. */
  lemma MoveLive(s: SamplerState, st: Settings, o: Orientation, prop: AtomicProposal)
    requires Held(s, prop.atom1) && Free(s, prop.moveDest) && MoveDraw(s, st, o, prop)
    ensures var p := prop.atom1;
            Live(MoveStep(s, st, o, prop)) == (Live(s) - {p})[prop.moveDest := s.domain[p]]
  {
    var p, q := prop.atom1, prop.moveDest;
    var m := s.domain[p];
    var removed := Flushed(s.domain - {p}, s.eraseCache, s.insertCache);
    FlushedRemove(s.domain, s.eraseCache, s.insertCache, p);
    DroppedAt(Live(s), removed, p);
    FlushedSet(s.domain - {p}, s.eraseCache, s.insertCache, q, m);
    SetAt(removed, Flushed((s.domain - {p})[q := m], s.eraseCache, s.insertCache), q);
    assert MoveStep(s, st, o, prop).domain == (s.domain - {p})[q := m];
  }

  /** Two maps that agree away from k, the second holding k: the second is
      the first with k set. */
  lemma SetAt(a: map<nat, real>, b: map<nat, real>, k: nat)
    requires a - {k} == b - {k} && k in b
    ensures b == a[k := b[k]]
  {
    forall j | j in b
      ensures j in a[k := b[k]] && a[k := b[k]][j] == b[j]
    {
      if j != k {
        assert j in b - {k};
      }
    }
    forall j | j in a[k := b[k]]
      ensures j in b
    {
      if j != k {
        assert j in a - {k};
      }
    }
  }

  /** Two maps that agree away from k, the second without k: the second is
      the first with k removed. */
  lemma DroppedAt(a: map<nat, real>, b: map<nat, real>, k: nat)
    requires a - {k} == b - {k} && k !in b
    ensures b == a - {k}
  {
    assert b - {k} == b;
  }

  /** acceptExchange on two held atoms in different cells: each cell changes
      by exactly the AP delta recorded for it, no other cell changes, at most
      one of the two atoms is erased (never both), and an erase counts one
      accepted death while no erase counts one rejected death. With a delta inside [-m1, m2] the two cells together lose
      nothing but an erased remnant below Epsilon. Under the entry
      assertions (both new masses above Epsilon) both atoms are resized in
      place, their total mass and the total of their cells are kept, and a
      rejected death is counted. */
  lemma AcceptExchangeOutcome(s: SamplerState, o: Orientation, rows: nat, cols: nat, prop: AtomicProposal, d1: real)
    requires Inv(s, o.cellOf, rows, cols) && Held(s, prop.atom1) && Held(s, prop.atom2)
    requires o.cellOf(prop.atom1) != o.cellOf(prop.atom2)
    ensures var t := AcceptExchangeStep(s, o, prop, d1);
            var a1, a2 := prop.atom1, prop.atom2;
            var c1, c2 := o.cellOf(a1), o.cellOf(a2);
            var m1, m2 := s.domain[a1], s.domain[a2];
            && c1 in s.matrix && c2 in s.matrix
            && t.apLog == s.apLog + [ApUpdate(c1, t.matrix[c1] - s.matrix[c1]), ApUpdate(c2, t.matrix[c2] - s.matrix[c2])]
            && SameOutside(s.matrix, t.matrix, {c1, c2})
            && t.insertCache == s.insertCache
            && (t.eraseCache == s.eraseCache || t.eraseCache == s.eraseCache + [a1] || t.eraseCache == s.eraseCache + [a2])
            && Tally(t.counters) == Tally(s.counters) + 1
            && (t.eraseCache != s.eraseCache ==> t.counters == s.counters.(acceptDeath := s.counters.acceptDeath + 1))
            && (t.eraseCache == s.eraseCache ==> t.counters == s.counters.(rejectDeath := s.counters.rejectDeath + 1))
            && (-m1 <= d1 <= m2 ==>
                  s.matrix[c1] + s.matrix[c2] - Epsilon < t.matrix[c1] + t.matrix[c2] <= s.matrix[c1] + s.matrix[c2])
            && (m1 + d1 > Epsilon && m2 - d1 > Epsilon ==>
                  && t.domain == s.domain[a1 := m1 + d1][a2 := m2 - d1]
                  && t.eraseCache == s.eraseCache
                  && t.domain[a1] + t.domain[a2] == m1 + m2
                  && t.matrix[c1] == s.matrix[c1] + d1 && t.matrix[c2] == s.matrix[c2] - d1
                  && t.counters == s.counters.(rejectDeath := s.counters.rejectDeath + 1))
  {
    HeldMass(s, o.cellOf, rows, cols, prop.atom1);
    HeldMass(s, o.cellOf, rows, cols, prop.atom2);
    ExchangeEffectFacts(s.domain[prop.atom1], s.domain[prop.atom2], d1);
    var r := ExchangeEffect(s.domain[prop.atom1], s.domain[prop.atom2], d1);
    var s1 := FirstExchanged(s, o, prop, d1);
    var t := AcceptExchangeStep(s, o, prop, d1);
    assert |s1.eraseCache| == |s.eraseCache| + (if r.mass1.Some? then 0 else 1);
    assert |t.eraseCache| == |s1.eraseCache| + (if r.mass2.Some? then 0 else 1);
  }

  /** exchange on two held atoms in different cells. A rejected exchange
      leaves the matrix, the atoms, the caches and AP as they were and only
      counts a rejected death. An accepted one counts one accepted death when
      it erases an atom and one rejected death otherwise. It
      keeps the two cells' total up to the remnant of an erased atom (less
      than Epsilon) when the delta is the Gibbs draw, or the fallback mass
      lies in [0, m1 + m2]. The total is exact when no atom is erased. */
  lemma ExchangeConserves(s: SamplerState, st: Settings, o: Orientation, rows: nat, cols: nat, prop: AtomicProposal)
    requires st.lambda > 0.0 && Inv(s, o.cellOf, rows, cols) && Held(s, prop.atom1) && Held(s, prop.atom2)
    requires o.cellOf(prop.atom1) != o.cellOf(prop.atom2)
    ensures var t := ExchangeStep(s, st, o, prop);
            var draw := ExchangeDraw(s, st, o, prop);
            var c1, c2 := o.cellOf(prop.atom1), o.cellOf(prop.atom2);
            var m1, m2 := s.domain[prop.atom1], s.domain[prop.atom2];
            var gibbs := o.canUseGibbsPair(c1, c2, s.apLog) &&
                         GibbsMassPair(o.alphaParametersPair(c1, c2, s.apLog), m1, m2, st.annealingTemp, st.math,
                                       prop.rng.inverseNormSample).valid;
            var newMass := FallbackNewMass(st, m1, m2, prop.rng);
            && c1 in s.matrix && c2 in s.matrix
            && Tally(t.counters) == Tally(s.counters) + 1
            && (draw.None? ==>
                  && t.matrix == s.matrix && t.domain == s.domain && t.apLog == s.apLog
                  && t.insertCache == s.insertCache && t.eraseCache == s.eraseCache
                  && t.counters == s.counters.(rejectDeath := s.counters.rejectDeath + 1))
            && (draw.Some? && (gibbs || 0.0 <= newMass <= m1 + m2) ==>
                  s.matrix[c1] + s.matrix[c2] - Epsilon < t.matrix[c1] + t.matrix[c2] <= s.matrix[c1] + s.matrix[c2])
            && (draw.Some? && t.eraseCache == s.eraseCache ==>
                  t.matrix[c1] + t.matrix[c2] == s.matrix[c1] + s.matrix[c2])
            && (draw.Some? && t.eraseCache != s.eraseCache ==>
                  t.counters == s.counters.(acceptDeath := s.counters.acceptDeath + 1))
            && (draw.Some? && t.eraseCache == s.eraseCache ==>
                  t.counters == s.counters.(rejectDeath := s.counters.rejectDeath + 1))
  {
    var a1, a2 := prop.atom1, prop.atom2;
    var c1, c2 := o.cellOf(a1), o.cellOf(a2);
    HeldMass(s, o.cellOf, rows, cols, a1);
    HeldMass(s, o.cellOf, rows, cols, a2);
    var m1, m2 := s.domain[a1], s.domain[a2];
    var draw := ExchangeDraw(s, st, o, prop);
    if draw.Some? {
      var d1 := draw.value;
      var delta := FallbackDelta(m1, m2, FallbackNewMass(st, m1, m2, prop.rng));
      ExchangeOutcomeFacts(st, m1, m2, o.canUseGibbsPair(c1, c2, s.apLog), o.alphaParametersPair(c1, c2, s.apLog),
                           prop.rng, o.computeDeltaLL(c1, delta, c2, -delta, s.apLog));
      AcceptExchangeOutcome(s, o, rows, cols, prop, d1);
      ExchangeEffectFacts(m1, m2, d1);
      var t := AcceptExchangeStep(s, o, prop, d1);
      var r := ExchangeEffect(m1, m2, d1);
      if t.eraseCache == s.eraseCache {
        assert r.mass1.Some? && r.mass2.Some? by {
          var s1 := FirstExchanged(s, o, prop, d1);
          assert |s1.eraseCache| == |s.eraseCache| + (if r.mass1.Some? then 0 else 1);
          assert |t.eraseCache| == |s1.eraseCache| + (if r.mass2.Some? then 0 else 1);
        }
      }
    }
  }
}