/** The atomic domain as the sampler sees it: committed atoms (position to
    mass), the staged inserts and erases of the running batch, and what
    flushCache makes of them; and the relation between the atoms and the
    factor matrix: every cell holds the total mass of the atoms that map into
    it. */
module AtomicDomain {
  import opened GapsTypes

  /** The staged inserts as a map; a later insert at a position wins. */
  function InsertMap(ins: seq<StagedInsert>): (m: map<nat, real>)
  {
    if ins == [] then map[]
    else InsertMap(ins[..|ins| - 1])[ins[|ins| - 1].pos := ins[|ins| - 1].mass]
  }

  /** Every staged insert's position is staged, and every staged position
      comes from a staged insert. */
  lemma {:induction false} InsertMapKeys(ins: seq<StagedInsert>)
    ensures forall i | 0 <= i < |ins| :: ins[i].pos in InsertMap(ins)
    ensures forall p | p in InsertMap(ins) :: exists i | 0 <= i < |ins| :: ins[i].pos == p
  {
    if ins != [] {
      var init := ins[..|ins| - 1];
      InsertMapKeys(init);
      forall i | 0 <= i < |ins|
        ensures ins[i].pos in InsertMap(ins)
      {
        if i < |ins| - 1 {
          assert ins[i] == init[i];
        }
      }
      forall p | p in InsertMap(ins)
        ensures exists i | 0 <= i < |ins| :: ins[i].pos == p
      {
        if p != ins[|ins| - 1].pos {
          var i :| 0 <= i < |init| && init[i].pos == p;
          assert ins[i] == init[i];
        }
      }
    }
  }

  /** flushCache: the committed atoms without the staged erases, plus the
      staged inserts. */
  function Flushed(d: map<nat, real>, erases: seq<nat>, ins: seq<StagedInsert>): (r: map<nat, real>)
  {
    (map p | p in d && p !in erases :: d[p]) + InsertMap(ins)
  }

  /** What flushCache keeps: an untouched committed atom with its mass, a
      staged insert with its mass, and nothing else. */
  lemma FlushedContents(d: map<nat, real>, erases: seq<nat>, ins: seq<StagedInsert>)
    ensures forall p | p in d && p !in erases && p !in InsertMap(ins) ::
              p in Flushed(d, erases, ins) && Flushed(d, erases, ins)[p] == d[p]
    ensures forall p | p in InsertMap(ins) ::
              p in Flushed(d, erases, ins) && Flushed(d, erases, ins)[p] == InsertMap(ins)[p]
    ensures forall p | p in Flushed(d, erases, ins) :: (p in d && p !in erases) || p in InsertMap(ins)
  {
  }

  /** A staged insert changes the flushed domain at its position only, where
      it leaves the inserted mass. */
  lemma FlushedInsert(d: map<nat, real>, erases: seq<nat>, ins: seq<StagedInsert>, x: StagedInsert)
    ensures Flushed(d, erases, ins) - {x.pos} == Flushed(d, erases, ins + [x]) - {x.pos}
    ensures x.pos in Flushed(d, erases, ins + [x]) && Flushed(d, erases, ins + [x])[x.pos] == x.mass
  {
    assert (ins + [x])[..|ins|] == ins;
  }

  /** A staged insert adds its position to the staged positions. */
  lemma InsertMapSnoc(ins: seq<StagedInsert>, x: StagedInsert)
    ensures InsertMap(ins + [x]).Keys == InsertMap(ins).Keys + {x.pos}
  {
    assert (ins + [x])[..|ins|] == ins;
  }

  /** A staged erase of a position with no staged insert removes that atom
      and nothing else. */
  lemma FlushedErase(d: map<nat, real>, erases: seq<nat>, ins: seq<StagedInsert>, k: nat)
    requires k !in InsertMap(ins)
    ensures Flushed(d, erases, ins) - {k} == Flushed(d, erases + [k], ins) - {k}
    ensures k !in Flushed(d, erases + [k], ins)
  {
  }

  /** Setting a committed atom's mass in place changes the flushed domain at
      that position only. */
  lemma FlushedSet(d: map<nat, real>, erases: seq<nat>, ins: seq<StagedInsert>, k: nat, m: real)
    requires k !in erases && k !in InsertMap(ins)
    ensures Flushed(d, erases, ins) - {k} == Flushed(d[k := m], erases, ins) - {k}
    ensures k in Flushed(d[k := m], erases, ins) && Flushed(d[k := m], erases, ins)[k] == m
  {
  }

  /** Taking a committed atom out changes the flushed domain at that position
      only. */
  lemma FlushedRemove(d: map<nat, real>, erases: seq<nat>, ins: seq<StagedInsert>, k: nat)
    requires k !in InsertMap(ins)
    ensures Flushed(d, erases, ins) - {k} == Flushed(d - {k}, erases, ins) - {k}
    ensures k !in Flushed(d - {k}, erases, ins)
  {
  }

  /** What the atom at k contributes to cell c. */
  function Share(atoms: map<nat, real>, cellOf: nat -> Cell, c: Cell, k: nat): real
  {
    if k in atoms && cellOf(k) == c then atoms[k] else 0.0
  }

  /** Total mass of the atoms that map into cell c. */
  ghost function CellMass(atoms: map<nat, real>, cellOf: nat -> Cell, c: Cell): real
    decreases atoms.Keys
  {
    if atoms == map[] then 0.0
    else
      var k :| k in atoms;
      Share(atoms, cellOf, c, k) + CellMass(atoms - {k}, cellOf, c)
  }

  /** The sum does not depend on which atom is taken out first. */
  lemma {:induction false} CellMassSplit(atoms: map<nat, real>, cellOf: nat -> Cell, c: Cell, k: nat)
    requires k in atoms
    ensures CellMass(atoms, cellOf, c) == Share(atoms, cellOf, c, k) + CellMass(atoms - {k}, cellOf, c)
    decreases atoms.Keys
  {
    var j :| j in atoms && CellMass(atoms, cellOf, c) == Share(atoms, cellOf, c, j) + CellMass(atoms - {j}, cellOf, c);
    if j != k {
      CellMassSplit(atoms - {j}, cellOf, c, k);
      CellMassSplit(atoms - {k}, cellOf, c, j);
      assert atoms - {j} - {k} == atoms - {k} - {j};
      assert Share(atoms - {j}, cellOf, c, k) == Share(atoms, cellOf, c, k);
      assert Share(atoms - {k}, cellOf, c, j) == Share(atoms, cellOf, c, j);
    }
  }

  /** Changing the atom at k alone changes only the mass of k's cell, and by
      exactly what k's own contribution changes. */
  lemma CellMassChange(a: map<nat, real>, b: map<nat, real>, cellOf: nat -> Cell, c: Cell, k: nat)
    requires a - {k} == b - {k}
    ensures CellMass(b, cellOf, c) == CellMass(a, cellOf, c) + Share(b, cellOf, c, k) - Share(a, cellOf, c, k)
  {
    if k in a {
      CellMassSplit(a, cellOf, c, k);
    } else {
      assert a - {k} == a;
    }
    if k in b {
      CellMassSplit(b, cellOf, c, k);
    } else {
      assert b - {k} == b;
    }
  }

  /** With non-negative masses, a cell holds at least the mass of each of its atoms. */
  lemma {:induction false} CellMassCovers(atoms: map<nat, real>, cellOf: nat -> Cell, c: Cell, k: nat)
    requires forall p | p in atoms :: atoms[p] >= 0.0
    ensures CellMass(atoms, cellOf, c) >= Share(atoms, cellOf, c, k)
    decreases atoms.Keys
  {
    if atoms != map[] {
      var j :| j in atoms && CellMass(atoms, cellOf, c) == Share(atoms, cellOf, c, j) + CellMass(atoms - {j}, cellOf, c);
      CellMassCovers(atoms - {j}, cellOf, c, k);
      assert Share(atoms, cellOf, c, j) >= 0.0;
      if k != j {
        assert Share(atoms - {j}, cellOf, c, k) == Share(atoms, cellOf, c, k);
      } else {
        CellMassCovers(atoms - {j}, cellOf, c, 0);
        assert Share(atoms - {j}, cellOf, c, 0) >= 0.0;
      }
    }
  }

  /** Every atom carries at least Epsilon. */
  predicate Positive(atoms: map<nat, real>)
  {
    forall p | p in atoms :: atoms[p] >= Epsilon
  }

  /** The mass of the atom at k, zero when there is none. */
  function MassAt(atoms: map<nat, real>, k: nat): real
  {
    if k in atoms then atoms[k] else 0.0
  }

  /** Changing the atom at k moves k's cell by exactly the change of k's mass
      (a missing atom counts as zero), leaves every other cell's mass alone,
      and keeps every atom at Epsilon or more when k does. */
  lemma CellMassAfterChange(a: map<nat, real>, b: map<nat, real>, cellOf: nat -> Cell, k: nat)
    requires a - {k} == b - {k}
    ensures CellMass(b, cellOf, cellOf(k)) == CellMass(a, cellOf, cellOf(k)) + MassAt(b, k) - MassAt(a, k)
    ensures forall c | c != cellOf(k) :: CellMass(b, cellOf, c) == CellMass(a, cellOf, c)
    ensures Positive(a) && (k in b ==> b[k] >= Epsilon) ==> Positive(b)
  {
    forall c
      ensures CellMass(b, cellOf, c) == CellMass(a, cellOf, c) + Share(b, cellOf, c, k) - Share(a, cellOf, c, k)
    {
      CellMassChange(a, b, cellOf, c, k);
    }
    forall p | p in b && p != k
      ensures p in a && b[p] == a[p]
    {
      assert p in b - {k};
    }
  }

  /** The entry of cell c, zero outside the matrix. */
  function Entry(m: map<Cell, real>, c: Cell): real
  {
    if c in m then m[c] else 0.0
  }

  /** The matrix with delta added to cell c. */
  function Bump(m: map<Cell, real>, c: Cell, delta: real): map<Cell, real>
  {
    m[c := Entry(m, c) + delta]
  }

  /** The matrix with mass taken out of cell c, clamped at zero. */
  function Withdraw(m: map<Cell, real>, c: Cell, mass: real): map<Cell, real>
  {
    m[c := Max(Entry(m, c) - mass, 0.0)]
  }

  /** Domain/matrix agreement: every cell of the matrix holds the total mass
      of the atoms that map into it. */
  ghost predicate Agrees(matrix: map<Cell, real>, atoms: map<nat, real>, cellOf: nat -> Cell)
  {
    forall c {:trigger CellMass(atoms, cellOf, c)} | c in matrix :: matrix[c] == CellMass(atoms, cellOf, c)
  }

  /** Agreement survives a change of the atom at k when k's cell changes by
      exactly the change of k's mass and no other cell changes. */
  lemma AgreesAfterChange(matrix: map<Cell, real>, a: map<nat, real>, b: map<nat, real>,
                          cellOf: nat -> Cell, k: nat, delta: real)
    requires Agrees(matrix, a, cellOf)
    requires a - {k} == b - {k}
    requires cellOf(k) in matrix
    requires delta == MassAt(b, k) - MassAt(a, k)
    ensures Agrees(Bump(matrix, cellOf(k), delta), b, cellOf)
  {
    CellMassAfterChange(a, b, cellOf, k);
  }

  /** Under agreement and non-negative masses, a cell holds at least the mass
      of each atom in it, so taking that atom's mass out never goes below
      zero. */
  lemma AgreesCovers(matrix: map<Cell, real>, atoms: map<nat, real>, cellOf: nat -> Cell, k: nat)
    requires Agrees(matrix, atoms, cellOf) && Positive(atoms)
    requires k in atoms && cellOf(k) in matrix
    ensures matrix[cellOf(k)] >= atoms[k]
  {
    forall p | p in atoms
      ensures atoms[p] >= 0.0
    {
    }
    CellMassCovers(atoms, cellOf, cellOf(k), k);
  }

  /** Under agreement and non-negative masses every cell is non-negative. */
  lemma AgreesNonNegative(matrix: map<Cell, real>, atoms: map<nat, real>, cellOf: nat -> Cell)
    requires Agrees(matrix, atoms, cellOf) && Positive(atoms)
    ensures forall c | c in matrix :: matrix[c] >= 0.0
  {
    forall c | c in matrix
      ensures matrix[c] >= 0.0
    {
      CellMassCovers(atoms, cellOf, c, 0);
      assert Share(atoms, cellOf, c, 0) >= 0.0;
    }
  }

  /** The sampler's consistency between the staged atomic domain and the
      matrix: every live atom carries at least Epsilon and every cell holds
      the total mass of its live atoms. */
  ghost predicate Consistent(matrix: map<Cell, real>, d: map<nat, real>, erases: seq<nat>,
                             ins: seq<StagedInsert>, cellOf: nat -> Cell)
  {
    Positive(Flushed(d, erases, ins)) && Agrees(matrix, Flushed(d, erases, ins), cellOf)
  }

  /** A committed atom that no staged operation has touched yet. */
  predicate Untouched(d: map<nat, real>, erases: seq<nat>, ins: seq<StagedInsert>, k: nat)
  {
    k in d && k !in erases && k !in InsertMap(ins)
  }

  /** An untouched atom of a consistent state is live, carries at least
      Epsilon, and its cell holds at least its mass. */
  lemma UntouchedMass(matrix: map<Cell, real>, d: map<nat, real>, erases: seq<nat>,
                      ins: seq<StagedInsert>, cellOf: nat -> Cell, k: nat)
    requires Consistent(matrix, d, erases, ins, cellOf) && Untouched(d, erases, ins, k)
    requires cellOf(k) in matrix
    ensures k in Flushed(d, erases, ins) && Flushed(d, erases, ins)[k] == d[k]
    ensures d[k] >= Epsilon && matrix[cellOf(k)] >= d[k]
  {
    AgreesCovers(matrix, Flushed(d, erases, ins), cellOf, k);
  }

  /** birth: staging an atom of at least Epsilon at a free position and
      adding its mass to its cell keeps the state consistent. */
  lemma BirthKeeps(matrix: map<Cell, real>, d: map<nat, real>, erases: seq<nat>,
                   ins: seq<StagedInsert>, cellOf: nat -> Cell, x: StagedInsert)
    requires Consistent(matrix, d, erases, ins, cellOf)
    requires x.pos !in d && x.pos !in InsertMap(ins)
    requires cellOf(x.pos) in matrix && x.mass >= Epsilon
    ensures Consistent(Bump(matrix, cellOf(x.pos), x.mass), d, erases, ins + [x], cellOf)
  {
    FlushedInsert(d, erases, ins, x);
    CellMassAfterChange(Flushed(d, erases, ins), Flushed(d, erases, ins + [x]), cellOf, x.pos);
    AgreesAfterChange(matrix, Flushed(d, erases, ins), Flushed(d, erases, ins + [x]), cellOf, x.pos, x.mass);
  }

  /** death, rebirth accepted: taking the atom's mass out of its cell (the
      clamp at zero never bites) and putting the rebirth mass back at the
      same position keeps the state consistent. */
  lemma RebirthKeeps(matrix: map<Cell, real>, d: map<nat, real>, erases: seq<nat>,
                     ins: seq<StagedInsert>, cellOf: nat -> Cell, k: nat, r: real)
    requires Consistent(matrix, d, erases, ins, cellOf) && Untouched(d, erases, ins, k)
    requires cellOf(k) in matrix && r >= Epsilon
    ensures matrix[cellOf(k)] - d[k] >= 0.0
    ensures Consistent(Bump(Withdraw(matrix, cellOf(k), d[k]), cellOf(k), r), d[k := r], erases, ins, cellOf)
  {
    var c := cellOf(k);
    UntouchedMass(matrix, d, erases, ins, cellOf, k);
    FlushedSet(d, erases, ins, k, r);
    CellMassAfterChange(Flushed(d, erases, ins), Flushed(d[k := r], erases, ins), cellOf, k);
    AgreesAfterChange(matrix, Flushed(d, erases, ins), Flushed(d[k := r], erases, ins), cellOf, k, r - d[k]);
    assert Bump(Withdraw(matrix, c, d[k]), c, r) == Bump(matrix, c, r - d[k]);
  }

  /** death, rebirth rejected: taking the atom's mass out of its cell and
      staging its erase keeps the state consistent; the clamp at zero never
      bites. */
  lemma DeathKeeps(matrix: map<Cell, real>, d: map<nat, real>, erases: seq<nat>,
                   ins: seq<StagedInsert>, cellOf: nat -> Cell, k: nat)
    requires Consistent(matrix, d, erases, ins, cellOf) && Untouched(d, erases, ins, k)
    requires cellOf(k) in matrix
    ensures matrix[cellOf(k)] - d[k] >= 0.0
    ensures Consistent(Withdraw(matrix, cellOf(k), d[k]), d, erases + [k], ins, cellOf)
  {
    var c := cellOf(k);
    UntouchedMass(matrix, d, erases, ins, cellOf, k);
    FlushedErase(d, erases, ins, k);
    CellMassAfterChange(Flushed(d, erases, ins), Flushed(d, erases + [k], ins), cellOf, k);
    AgreesAfterChange(matrix, Flushed(d, erases, ins), Flushed(d, erases + [k], ins), cellOf, k, -d[k]);
    assert Withdraw(matrix, c, d[k]) == Bump(matrix, c, -d[k]);
  }

  /** move: moving an atom's whole mass to a free position in another cell,
      taking it out of the first cell and adding it to the second, keeps the
      state consistent; the clamp at zero never bites. */
  lemma MoveKeeps(matrix: map<Cell, real>, d: map<nat, real>, erases: seq<nat>,
                  ins: seq<StagedInsert>, cellOf: nat -> Cell, p: nat, q: nat)
    requires Consistent(matrix, d, erases, ins, cellOf) && Untouched(d, erases, ins, p)
    requires q !in d && q !in erases && q !in InsertMap(ins)
    requires cellOf(p) in matrix && cellOf(q) in matrix && cellOf(p) != cellOf(q)
    ensures matrix[cellOf(p)] - d[p] >= 0.0
    ensures Consistent(Bump(Withdraw(matrix, cellOf(p), d[p]), cellOf(q), d[p]), (d - {p})[q := d[p]], erases, ins, cellOf)
  {
    var c1, c2, m := cellOf(p), cellOf(q), d[p];
    UntouchedMass(matrix, d, erases, ins, cellOf, p);
    var live0, live1, live2 := Flushed(d, erases, ins), Flushed(d - {p}, erases, ins), Flushed((d - {p})[q := m], erases, ins);
    FlushedRemove(d, erases, ins, p);
    FlushedSet(d - {p}, erases, ins, q, m);
    CellMassAfterChange(live0, live1, cellOf, p);
    CellMassAfterChange(live1, live2, cellOf, q);
    AgreesAfterChange(matrix, live0, live1, cellOf, p, -m);
    var taken := Bump(matrix, c1, -m);
    AgreesAfterChange(taken, live1, live2, cellOf, q, m);
    assert Withdraw(matrix, c1, m) == taken;
  }

  /** updateAtomMass with a delta that takes the atom below Epsilon,
      followed by the matching matrix update: the atom's erase is staged and
      its whole mass leaves its cell, keeping the state consistent. */
  lemma AtomDropKeeps(matrix: map<Cell, real>, d: map<nat, real>, erases: seq<nat>,
                      ins: seq<StagedInsert>, cellOf: nat -> Cell, k: nat)
    requires Consistent(matrix, d, erases, ins, cellOf) && Untouched(d, erases, ins, k)
    requires cellOf(k) in matrix
    ensures Consistent(Bump(matrix, cellOf(k), -1.0 * d[k]), d, erases + [k], ins, cellOf)
  {
    UntouchedMass(matrix, d, erases, ins, cellOf, k);
    var live0 := Flushed(d, erases, ins);
    FlushedErase(d, erases, ins, k);
    CellMassAfterChange(live0, Flushed(d, erases + [k], ins), cellOf, k);
    AgreesAfterChange(matrix, live0, Flushed(d, erases + [k], ins), cellOf, k, -1.0 * d[k]);
  }

  /** updateAtomMass with a delta that leaves the atom at Epsilon or more,
      followed by the matching matrix update: the atom and its cell both
      change by delta, keeping the state consistent. */
  lemma AtomGrowKeeps(matrix: map<Cell, real>, d: map<nat, real>, erases: seq<nat>,
                      ins: seq<StagedInsert>, cellOf: nat -> Cell, k: nat, delta: real)
    requires Consistent(matrix, d, erases, ins, cellOf) && Untouched(d, erases, ins, k)
    requires cellOf(k) in matrix && d[k] + delta >= Epsilon
    ensures Consistent(Bump(matrix, cellOf(k), delta), d[k := d[k] + delta], erases, ins, cellOf)
  {
    UntouchedMass(matrix, d, erases, ins, cellOf, k);
    var live0 := Flushed(d, erases, ins);
    FlushedSet(d, erases, ins, k, d[k] + delta);
    CellMassAfterChange(live0, Flushed(d[k := d[k] + delta], erases, ins), cellOf, k);
    AgreesAfterChange(matrix, live0, Flushed(d[k := d[k] + delta], erases, ins), cellOf, k, delta);
  }

  /** flushCache with nothing staged leaves the domain as it is. */
  lemma FlushedNothing(d: map<nat, real>)
    ensures Flushed(d, [], []) == d
  {
  }
}
