# Molecular 3-SAT solver, modelled in Dafny

This project models the core of a Python simulation of a DNA-computing 3-SAT solver.
The simulation has three parts:

- **`DNASequence`** (module `Dna`, `dna_sequence.dfy`). A strand over A, C, G, T.
  It covers Watson-Crick complementation, the validity check, the pairing test
  `isDnaSequense`, and restriction-enzyme cleavage.
- **`MolecularTube`** (module `Tube`, `molecular_tube.dfy`). A labelled set of
  molecules with `add`, `is_empty`, `extract` and `intersect`.
- **`MolecularThreeSATSolver`** (module `ThreeSat`, `molecular_three_sat_solver.dfy`).
  - Every literal gets a random 3-letter block.
  - The initial tube holds one molecule per assignment of the n variables. A
    molecule is the concatenation of the chosen literals' blocks.
  - Each clause keeps the molecules that carry one of its literals' blocks at
    offset `3 * (|literal| - 1)`.
  - `solve` answers false as soon as the tube runs empty.

`wrappers.dfy` holds the `Result`/`Outcome` types used for Python's exceptions.
`counting.dfy` holds one cardinality lemma: a sequence without repeats has as
many distinct elements as positions.

Modelling choices:

- Molecules are `seq<char>` values, and a tube's molecules are a `set<seq<char>>`.
- The classes whose fields change in place stay classes.
  - `MolecularTube.add` reassigns `molecules`.
  - The solver's `add_clause` appends to `clauses`.
  - `_initialize_encodings` fills `variableEncodings`.
- The loops of `extract`, `isDnaSequense`, `cleave`, `_initialize_encodings`,
  `_is_valid_sequence`, `_generate_initial_tube`, `_process_clause` and `solve` are
  `while` loops with invariants.
- The main theorem is `SolveCorrect`. If the two blocks of every variable differ
  (`PairDistinct`), `solve` answers true exactly when some assignment satisfies
  every stored clause.
- The encoding loop as written does not guarantee `PairDistinct`, so that theorem
  needs it as a hypothesis. `SameVariableCollision` gives a draw for which `solve`
  answers wrongly. One direction needs no hypothesis: `SatisfiableAccepted` shows
  that a satisfiable formula is accepted whatever blocks were drawn.

Three behaviours of the code shape the model:

- **Blocks of one variable.** The encoding loop checks `neg_seq` against
  `used_sequences` before `pos_seq` is added (molecular_threeSAT_solver.py:29-41).
  So it keeps the blocks of *different* variables apart (`Separated`), but the two
  blocks of one variable may coincide or be complements.
- **Constructor errors.** `is_valid_sequence` raises
  `ValueError("Invalid DNA sequence…")` (dna_sequence.py:10). The constructor
  computes the complement first (dna_sequence.py:4, 16), so a bad character raises
  `KeyError` from the dictionary lookup, and the `ValueError` is never reached.
- **Equality.** `DNASequence` defines no `__eq__`/`__hash__` (dna_sequence.py:1-25),
  so Python sets compare molecules by object identity. The model compares strands
  by value. In the solver the two agree whenever the generated strands differ. They
  differ only when some `enc[v] == enc[-v]`: then Python's initial tube holds 2^n
  objects, while the set of strands is smaller. The verdict depends only on
  emptiness, so it is the same either way. For the tube operations on their own,
  the difference is larger (see "## Left out").

## Model

| member | source | states |
|---|---|---|
| Dna.PairingIsInvolution | dna_sequence.py:15 | The pairing table is defined exactly on A, C, G, T. It maps each base to a different base, and applying it twice gives back the base. |
| Dna.GenerateComplementaryStrand | dna_sequence.py:13-16 | Succeeds iff every character is a base. On success the result has the same length and holds the partner of each base. Otherwise it fails with the first non-base character (`KeyError`). |
| Dna.ComplementInvolution | dna_sequence.py:13-16 | Complementing a valid strand gives a valid strand of the same length, and complementing twice gives back the strand. |
| Dna.ComplementDiffers | dna_sequence.py:15-16 | A non-empty valid strand never equals its complement. |
| Dna.IsValidSequence | dna_sequence.py:7-10 | Passes iff every character is in ACGT; otherwise fails with InvalidSequence. |
| Dna.NewDnaSequence | dna_sequence.py:2-5 | The constructor as written succeeds iff the strand is valid, and then stores the strand and its complement. Otherwise it fails with `KeyError` on a character that is not a base. |
| Dna.ConstructorNeverReportsInvalidSequence | dna_sequence.py:2-10 | The constructor as written never fails with InvalidSequence. "AXG" fails with `KeyError('X')`. |
| Dna.NewDnaSequenceChecked | dna_sequence.py:2-10 | The constructor with the check first: success iff valid, and every failure is InvalidSequence. |
| Dna.PairedIsComplement | dna_sequence.py:27-39 | For a valid first strand, base-by-base pairing holds iff the second strand is its complement. An invalid first strand pairs with nothing. |
| Dna.IsDnaSequence | dna_sequence.py:27-39 | The loop returns true iff the lengths agree and each character of the second strand is the partner of the first strand's character at the same position. For a valid first strand this means the second strand is its complement. |
| Dna.FindFrom | dna_sequence.py:60 | Reports the leftmost occurrence of the separator at or after an offset, or that none exists. |
| Dna.SplitJoin | dna_sequence.py:60 | Joining the pieces of `str.split` with the separator gives back the strand. |
| Dna.SplitPiecesAreFree | dna_sequence.py:60 | No piece of a split contains the separator. |
| Dna.CleavedSegments | dna_sequence.py:60-69 | Every segment of a cleavage is non-empty and does not contain the recognition site. |
| Dna.CleaveWithoutSite | dna_sequence.py:60-64 | A non-empty strand without the site is returned whole, as one segment. |
| Dna.CleaveEcoRIExample | dna_sequence.py:76-81 | Cleaving ATCGGAATTCGGAATTC at GAATTC gives ["ATCG", "G"]. |
| Dna.Cleave | dna_sequence.py:43-72 | An empty site fails, as `str.split` does. Otherwise the loop returns the non-empty split pieces in order, each free of the site. |
| Tube.AlignedOccurrenceBounds | molecular_tube.py:24-30 | A target longer than the molecule is never found. The empty target is found in every molecule. |
| Tube.MolecularTube.constructor | molecular_tube.py:6-8 | A new tube has the given name and no molecules. |
| Tube.MolecularTube.Add | molecular_tube.py:10-12 | The molecules become the old molecules plus the new one. The name is unchanged. |
| Tube.AddIdempotent | molecular_tube.py:10-12 | Adding the same molecule twice gives the same set, and the same size, as adding it once. |
| Tube.MolecularTube.IsEmpty | molecular_tube.py:15-17 | True iff the tube holds no molecule. |
| Tube.MolecularTube.Extract | molecular_tube.py:19-31 | Returns a fresh tube. It holds exactly those molecules of the receiver that contain the target at an offset that is a multiple of 3. The receiver is unchanged. |
| Tube.MolecularTube.Intersect | molecular_tube.py:38-42 | Returns a fresh tube whose molecules are the intersection of both tubes' molecules. Neither input changes. |
| Tube.IntersectLaws | molecular_tube.py:41 | Intersection is idempotent, is annihilated by the empty tube, is commutative, and is contained in both operands. |
| ThreeSat.AllBlocksAreTheBlocks | molecular_threeSAT_solver.py:18-24 | A 3-letter draw from `bases` can return exactly the three-nucleotide strands. |
| ThreeSat.SimilarityAddsNothing | molecular_threeSAT_solver.py:48-63 | Some used strand is similar to the candidate iff the candidate or its complement is used. The similarity scan rejects nothing more. |
| ThreeSat.MolecularThreeSatSolver.IsValidSequence | molecular_threeSAT_solver.py:48-59 | Accepts iff neither the candidate nor its complement is in the used set. |
| ThreeSat.AdmissibleBlockExists | molecular_threeSAT_solver.py:23-32 | A used set that is closed under complement and has fewer than 64 members leaves some acceptable draw, so the retry loop can exit. |
| ThreeSat.UsedByClosed | molecular_threeSAT_solver.py:37-41 | The used set (every block and its complement) is closed under complement. |
| ThreeSat.UsedByGrows | molecular_threeSAT_solver.py:37-41 | Encoding one variable grows the used set by exactly {pos, comp(pos), neg, comp(neg)}. |
| ThreeSat.SeparatedExtend | molecular_threeSAT_solver.py:21-41 | Two blocks accepted against the used set keep every block of a different variable apart from them and from their complements. |
| ThreeSat.EncodeVariable | molecular_threeSAT_solver.py:21-41 | One encoding iteration keeps the table complete for 1..v and separated, and adds at most four strands to the used set. |
| ThreeSat.MolecularThreeSatSolver.InitializeEncodings | molecular_threeSAT_solver.py:16-41 | The table ends with exactly the keys ±1..±n, each a 3-letter ACGT block. Blocks of different variables differ from each other and from each other's complements. Nothing is promised between `enc[v]` and `enc[-v]`. |
| ThreeSat.MolecularThreeSatSolver.constructor | molecular_threeSAT_solver.py:10-14 | Stores the variable count and an empty clause list, and fills a complete, separated table. |
| ThreeSat.SameVariableCollision | molecular_threeSAT_solver.py:28-35 | The loop as written may give both literals of variable 1 the block AAA. For the clauses [1,1,1] and [-1,-1,-1], `solve` then answers satisfiable although no assignment satisfies them. |
| ThreeSat.CollisionSurvives | molecular_threeSAT_solver.py:28-35 | With `enc[1] == enc[-1]`, no list of clauses over one variable empties the tube. |
| ThreeSat.MolecularThreeSatSolver.InitializeEncodingsDistinct | molecular_threeSAT_solver.py:28-32 | The corrected loop checks the negative block against the positive block too. It also guarantees `enc[v] != enc[-v]` and `enc[-v] != comp(enc[v])`. |
| ThreeSat.MolecularThreeSatSolver.WithDistinctBlocks | molecular_threeSAT_solver.py:10-14 | The constructor with the corrected loop: a complete, separated table whose variables' two blocks differ. |
| ThreeSat.CheckClause | molecular_threeSAT_solver.py:66-71 | Passes iff there are exactly 3 literals, all non-zero and in [-n, n]. Fails with WrongLength iff the count is not 3, and with InvalidLiteral iff the count is 3 but some literal is out of range. |
| ThreeSat.NoClauseWithoutVariables | molecular_threeSAT_solver.py:70-71 | With n <= 0, every list of literals is rejected. |
| ThreeSat.MolecularThreeSatSolver.AddClause | molecular_threeSAT_solver.py:66-72 | The outcome is that of the two checks. On success exactly the clause is appended; on failure the clause list is unchanged. |
| ThreeSat.ProductDistinct | molecular_threeSAT_solver.py:79 | The enumeration of assignments has 2^n entries, and none repeats. |
| ThreeSat.ProductComplete | molecular_threeSAT_solver.py:79 | Every boolean sequence of length n is enumerated. |
| ThreeSat.EncodeBlocks | molecular_threeSAT_solver.py:80-82 | An assignment's molecule is a valid strand of length 3n. Its block at offset 3(v-1) is `enc[v]` if v is true and `enc[-v]` if v is false. |
| ThreeSat.EncodeInjective | molecular_threeSAT_solver.py:80-82 | If the two blocks of every variable differ, different assignments give different molecules. |
| ThreeSat.InitialMoleculeShape | molecular_threeSAT_solver.py:74-87 | Every initial molecule has length 3n, is valid, and spells the blocks of some assignment. |
| ThreeSat.InitialTubeSize | molecular_threeSAT_solver.py:74-87 | If the two blocks of every variable differ, the initial tube holds exactly 2^n molecules. |
| ThreeSat.MolecularThreeSatSolver.EncodeAssignment | molecular_threeSAT_solver.py:80-83 | The `+=` loop builds the assignment's molecule, which is a valid strand. |
| ThreeSat.MolecularThreeSatSolver.GenerateInitialTube | molecular_threeSAT_solver.py:74-87 | Fails iff n < 0 (the error `itertools.product` raises). Otherwise it returns a fresh tube "T0" holding exactly the molecules of all assignments. |
| ThreeSat.MolecularThreeSatSolver.CarriesLiteral | molecular_threeSAT_solver.py:95-104 | The flag loop with `break` is true iff some literal's block sits at that literal's position in the molecule. |
| ThreeSat.Filter | molecular_threeSAT_solver.py:89-116 | The filtered tube is a subset of the input tube. |
| ThreeSat.MolecularThreeSatSolver.ProcessClause | molecular_threeSAT_solver.py:89-116 | Returns a fresh tube. It keeps exactly the molecules of the input that carry some literal's block at `3*(abs(l)-1)`. The input tube is not changed. |
| ThreeSat.LiteralPresentIffTrue | molecular_threeSAT_solver.py:97-102 | If the two blocks of every variable differ, a literal's block is at its position in an assignment's molecule iff the assignment makes the literal true. |
| ThreeSat.ClauseTrueIffSatisfies | molecular_threeSAT_solver.py:93-107 | Under the same condition, a molecule is kept iff its assignment satisfies the clause. |
| ThreeSat.SurvivorsAreSatisfying | molecular_threeSAT_solver.py:119-131 | Under the same condition, filtering the initial tube by the first k clauses leaves exactly the molecules of the assignments that satisfy those k clauses. |
| ThreeSat.SurvivorsShrink | molecular_threeSAT_solver.py:124-131 | Filtering by more clauses leaves a subset of what filtering by fewer leaves. |
| ThreeSat.SolveOutcomeIsFinalTube | molecular_threeSAT_solver.py:124-131 | With at least one clause, no prefix empties the tube iff the whole list leaves it non-empty. |
| ThreeSat.SolveCorrect | molecular_threeSAT_solver.py:119-134 | If the two blocks of every variable differ, `solve` answers true iff some assignment satisfies every stored clause. |
| ThreeSat.RejectedVerdict | molecular_threeSAT_solver.py:124-131 | A clause prefix that empties the tube makes the answer false. If the blocks differ, the formula is then unsatisfiable. |
| ThreeSat.AcceptedVerdict | molecular_threeSAT_solver.py:124-134 | If no prefix empties the tube (so the answer is true) and the blocks differ, the formula is satisfiable. |
| ThreeSat.TrueLiteralPresent | molecular_threeSAT_solver.py:97-102 | For any complete table, the block of a literal the assignment makes true sits at that literal's position in the assignment's molecule. |
| ThreeSat.SatisfiableAccepted | molecular_threeSAT_solver.py:119-134 | For any complete table (no distinctness needed), a satisfiable formula is accepted: no clause prefix empties the tube. |
| ThreeSat.SolveOutcomeWitness | molecular_threeSAT_solver.py:124-134 | An initial molecule that carries a literal of every clause keeps the answer true. |
| ThreeSat.MolecularThreeSatSolver.FilterByClauses | molecular_threeSAT_solver.py:124-134 | The loop stops at the first clause that empties the tube and answers false, with every earlier prefix non-empty. Otherwise it processes all clauses and answers true. |
| ThreeSat.MolecularThreeSatSolver.Solve | molecular_threeSAT_solver.py:119-134 | Fails iff n < 0. With no clauses it answers true. It answers false exactly when some clause prefix empties the tube, and stops at the first such clause. A satisfiable formula is always accepted. If the blocks differ, it answers true iff the formula is satisfiable. |
| ThreeSat.TestOneSatisfiable | molecular_threeSAT_solver.py:141-145 | The formula [1,2,3], [-1,2,3] over 3 variables is satisfiable. |
| ThreeSat.TestTwoUnsatisfiable | molecular_threeSAT_solver.py:149-155 | The formula [1,1,2], [-1,-1,-2], [1,-2,-2], [-1,2,2] over 2 variables is unsatisfiable. |
| ThreeSat.TestVerdicts | molecular_threeSAT_solver.py:138-156 | For any table, `solve` accepts the first test formula. For any table whose variables' blocks differ, it rejects the second. |

## Left out

- `print` calls and `__str__` methods are console diagnostics only and are not modelled.
- PCRSimulator.py and main.py are not part of this model. The stochastic copying is
  not used by the solver, and main.py is a demo entry point.
- The random draw is not modelled. `random.choices` inside a `while True` loop becomes
  a choice (`:|`) of any block that `_is_valid_sequence` accepts, which is exactly
  the set of blocks the retry loop can exit with. Probabilities are not modelled.
- ThreeSat.MolecularThreeSatSolver.constructor: requires at most 16 variables. With
  more variables the Python retry loop can run forever once the 64 blocks are used
  up, and that non-termination is not modelled. With at most 16 variables a
  counting argument shows an acceptable block always exists.
- ThreeSat.MolecularThreeSatSolver.WithDistinctBlocks: requires at most 16 variables,
  for the same reason.
- Object identity: Python sets compare `DNASequence` objects by identity, and the
  model compares strands by value. In the solver the two differ only in molecule
  counts, and only when some `enc[v] == enc[-v]`.
- Tube.MolecularTube.Add: a second object with the same strand grows Python's set
  (molecular_tube.py:12), but leaves the model's set unchanged. `Tube.AddIdempotent`
  holds for the same object added twice, not for two equal objects.
- Tube.MolecularTube.Intersect: Python's intersection (molecular_tube.py:41) keeps
  only objects held by both tubes, so two tubes holding different objects with the
  same strand intersect to nothing. The model keeps the shared strands.
- ThreeSat.MolecularThreeSatSolver.AddClause: `self.clauses.append(literals)`
  (molecular_threeSAT_solver.py:72) stores the caller's list object, not a copy. A
  caller that later changes that list changes a stored clause without revalidation;
  for example, setting a literal to 0 makes `solve` raise `KeyError` at
  molecular_threeSAT_solver.py:100. The model stores a value, and its `Valid()`
  assumes every stored clause passed the checks. This aliasing is not modelled.
- Dna.IsDnaSequence: `isDnaSequense` is declared in the class with neither `self`
  nor `@staticmethod` (dna_sequence.py:27). Called on an instance, it binds
  `strand1` to the object, and `len(strand1)` raises `TypeError` (dna_sequence.py:33).
  The model is the call through the class, `DNASequence.isDnaSequense(s1, s2)`; the
  instance call is not modelled.
- Tube names: built as in the source (`"clause_" + str(clause)` and so on) and never
  used by the solver's logic.
- `DNASequence.Sequence()` is a plain getter, and the field `sequence` stands for it.

## Findings

| source | as written | input that shows it | evidently intended | confidence | as-written member | corrected member |
|---|---|---|---|---|---|---|
| molecular_threeSAT_solver.py:28-41 | The negative block is checked against the used set before the positive block is added, so both blocks of a variable may coincide. | n = 1, both draws return AAA, clauses [1,1,1] and [-1,-1,-1]: `solve` answers satisfiable. | The negative block is also kept apart from the positive block and its complement, so `solve` is correct. | high (not executed) | ThreeSat.SameVariableCollision | ThreeSat.MolecularThreeSatSolver.InitializeEncodingsDistinct |
| dna_sequence.py:2-10 | The complement is computed before the validity check, so a bad character raises `KeyError`, and the `ValueError` check can never fire. | `DNASequence("AXG")` fails with `KeyError('X')`. | A bad character raises the "Invalid DNA sequence" `ValueError`. | high (not executed) | Dna.ConstructorNeverReportsInvalidSequence | Dna.NewDnaSequenceChecked |
