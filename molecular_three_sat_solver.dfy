/**
 * The molecular 3-SAT solver: every literal gets a three-nucleotide block, the
 * initial tube holds one molecule per assignment (the blocks of the chosen
 * literals, variable by variable), each clause keeps the molecules that carry
 * one of its literals' blocks at that variable's position, and the formula is
 * reported satisfiable unless the tube runs empty.
 */
module ThreeSat {
  import opened Wrappers
  import opened Counting
  import opened Dna
  import opened Tube

  // ---------------------------------------------------------------------------
  // Literal blocks

  /** The list `bases` that `random.choices` draws from. */
  const Bases: seq<char> := ['A', 'C', 'G', 'T']

  /**
   * The largest variable count for which a free block exists at every draw:
   * each variable takes at most four of the 64 blocks, so before the last draw
   * at most 4 * 15 = 60 are taken.
   */
  const MaxVariables: int := 16

  /** A literal encoding: three nucleotides. */
  predicate IsBlock(b: Strand) {
    |b| == 3 && IsACGT(b)
  }

  /** The `i`-th three-letter word over `bases`, in lexicographic order. */
  function BlockAt(i: nat): Strand
    requires i < 64
  {
    [Bases[i / 16], Bases[i / 4 % 4], Bases[i % 4]]
  }

  /** Every string that `''.join(random.choices(bases, k=3))` can return. */
  function AllBlocks(): (r: set<Strand>)
    ensures forall b :: b in r ==> IsBlock(b)
  {
    set i | 0 <= i < 64 :: BlockAt(i)
  }

  function BaseIndex(c: char): (k: nat)
    requires IsBase(c)
    ensures k < 4 && Bases[k] == c
  {
    if c == 'A' then 0 else if c == 'C' then 1 else if c == 'G' then 2 else 3
  }

  /** The draw can return exactly the blocks. */
  lemma AllBlocksAreTheBlocks(b: Strand)
    ensures b in AllBlocks() <==> IsBlock(b)
  {
    if IsBlock(b) {
      var x, y, z := BaseIndex(b[0]), BaseIndex(b[1]), BaseIndex(b[2]);
      var i := 16 * x + 4 * y + z;
      assert i / 16 == x && i / 4 % 4 == y && i % 4 == z;
      assert BlockAt(i) == b;
    }
  }

  /** Different indices give different words. */
  lemma BlockAtInjective(i: nat, j: nat)
    requires i < 64 && j < 64
    ensures BlockAt(i) == BlockAt(j) ==> i == j
  {
    if BlockAt(i) == BlockAt(j) {
      assert BlockAt(i)[0] == BlockAt(j)[0] && BlockAt(i)[1] == BlockAt(j)[1] && BlockAt(i)[2] == BlockAt(j)[2];
      BaseIndexInjective(i / 16, j / 16);
      BaseIndexInjective(i / 4 % 4, j / 4 % 4);
      BaseIndexInjective(i % 4, j % 4);
      BlockDigits(i);
      BlockDigits(j);
    }
  }

  lemma BaseIndexInjective(x: nat, y: nat)
    requires x < 4 && y < 4 && Bases[x] == Bases[y]
    ensures x == y
  {
  }

  /** The three base-4 digits that `BlockAt` reads determine the index. */
  lemma BlockDigits(i: nat)
    requires i < 64
    ensures i / 16 < 4 && i == 16 * (i / 16) + 4 * (i / 4 % 4) + i % 4
  {
  }


  /** `_are_sequences_similar`: the strands are equal, or the second is the complement of the first. */
  predicate AreSequencesSimilar(seq1: Strand, seq2: Strand)
    requires IsACGT(seq1)
  {
    seq1 == seq2 || Complement(seq1) == seq2
  }

  /** A block the retry loop accepts against the used set: neither it nor its complement is used. */
  predicate Admissible(b: Strand, used: set<Strand>)
    requires IsACGT(b)
  {
    b !in used && Complement(b) !in used
  }

  /** The similarity scan in `_is_valid_sequence` rejects nothing the two membership tests let through. */
  lemma SimilarityAddsNothing(b: Strand, used: set<Strand>)
    requires IsACGT(b)
    ensures (exists u :: u in used && AreSequencesSimilar(b, u)) <==> !Admissible(b, used)
  {
    if !Admissible(b, used) {
      if b in used {
        assert AreSequencesSimilar(b, b);
      } else {
        assert AreSequencesSimilar(b, Complement(b));
      }
    }
  }

  predicate ClosedUnderComplement(used: set<Strand>) {
    forall u :: u in used ==> IsACGT(u) && Complement(u) in used
  }

  /**
   * A used set closed under complement with fewer than 64 members leaves an
   * admissible block: otherwise every one of the 64 blocks would be used.
   */
  lemma AdmissibleBlockExists(used: set<Strand>)
    requires ClosedUnderComplement(used) && |used| < 64
    ensures exists b :: b in AllBlocks() && Admissible(b, used)
  {
    var all := seq(64, i requires 0 <= i < 64 => BlockAt(i));
    if forall i :: 0 <= i < 64 ==> all[i] in used {
      forall i, j | 0 <= i < j < 64 ensures all[i] != all[j] {
        BlockAtInjective(i, j);
      }
      SupersetCard(all, used);
    } else {
      var i :| 0 <= i < 64 && all[i] !in used;
      var b := BlockAt(i);
      assert b in AllBlocks();
      ComplementInvolution(b);
      assert Complement(b) !in used;
      assert Admissible(b, used);
    }
  }

  // ---------------------------------------------------------------------------
  // The encoding table

  function Abs(x: int): nat {
    if x < 0 then -x else x
  }

  predicate AllACGT(enc: map<int, Strand>) {
    forall l :: l in enc ==> IsACGT(enc[l])
  }

  /** The table has exactly the literals -n..-1, 1..n as keys, each mapped to a block. */
  ghost predicate WellFormed(enc: map<int, Strand>, n: int) {
    (forall l :: l in enc <==> l != 0 && -n <= l <= n) &&
    (forall l :: l in enc ==> IsBlock(enc[l]))
  }

  /** The table has a block for every literal of the variables 1..n. */
  predicate Covers(enc: map<int, Strand>, n: int) {
    forall l :: l != 0 && -n <= l <= n ==> l in enc
  }

  /** No block of one variable equals a block of another variable or its complement. */
  predicate Separated(enc: map<int, Strand>)
    requires AllACGT(enc)
  {
    forall l1, l2 :: l1 in enc && l2 in enc && Abs(l1) != Abs(l2) ==>
      enc[l1] != enc[l2] && enc[l1] != Complement(enc[l2])
  }

  /** The two blocks of every variable differ. The encoding loop does not ensure this (see `SameVariableCollision`). */
  predicate PairDistinct(enc: map<int, Strand>, n: int)
    requires Covers(enc, n)
  {
    forall v :: 1 <= v <= n ==> enc[v] != enc[-v]
  }

  /** The negative block of every variable is not the complement of its positive block. */
  predicate ComplementFree(enc: map<int, Strand>, n: int)
    requires Covers(enc, n) && AllACGT(enc)
  {
    forall v :: 1 <= v <= n ==> enc[-v] != Complement(enc[v])
  }

  /** The set `used_sequences` after the variables in `enc` are encoded: their blocks and the blocks' complements. */
  function UsedBy(enc: map<int, Strand>): set<Strand>
    requires AllACGT(enc)
  {
    (set l | l in enc :: enc[l]) + (set l | l in enc :: Complement(enc[l]))
  }

  /** The used set is closed under complement. */
  lemma UsedByClosed(enc: map<int, Strand>)
    requires AllACGT(enc)
    ensures ClosedUnderComplement(UsedBy(enc))
  {
    forall u | u in UsedBy(enc) ensures IsACGT(u) && Complement(u) in UsedBy(enc) {
      var l :| l in enc && (u == enc[l] || u == Complement(enc[l]));
      ComplementInvolution(enc[l]);
    }
  }

  /** Encoding variable `v` adds exactly its two blocks and their complements to the used set. */
  lemma UsedByGrows(enc: map<int, Strand>, v: int, pos: Strand, neg: Strand)
    requires AllACGT(enc) && IsACGT(pos) && IsACGT(neg)
    requires v != 0 && v !in enc && -v !in enc
    ensures AllACGT(enc[v := pos][-v := neg])
    ensures UsedBy(enc[v := pos][-v := neg]) == UsedBy(enc) + {pos, Complement(pos), neg, Complement(neg)}
  {
    var enc' := enc[v := pos][-v := neg];
    assert enc'[v] == pos && enc'[-v] == neg;
    forall u ensures u in UsedBy(enc') <==> u in UsedBy(enc) + {pos, Complement(pos), neg, Complement(neg)} {
      if u in UsedBy(enc) {
        var l :| l in enc && (u == enc[l] || u == Complement(enc[l]));
        assert l in enc' && enc'[l] == enc[l];
      }
    }
  }

  /** Every block in the table, and its complement, is in the used set. */
  lemma InUsedBy(enc: map<int, Strand>, l: int)
    requires AllACGT(enc) && l in enc
    ensures enc[l] in UsedBy(enc) && Complement(enc[l]) in UsedBy(enc)
  {
  }

  /** Two new blocks admissible against the used set keep the table separated. */
  lemma SeparatedExtend(enc: map<int, Strand>, v: int, pos: Strand, neg: Strand)
    requires AllACGT(enc) && Separated(enc) && v > 0
    requires forall l :: l in enc ==> Abs(l) != v
    requires IsACGT(pos) && IsACGT(neg) && Admissible(pos, UsedBy(enc)) && Admissible(neg, UsedBy(enc))
    ensures AllACGT(enc[v := pos][-v := neg]) && Separated(enc[v := pos][-v := neg])
  {
    var enc' := enc[v := pos][-v := neg];
    forall l1, l2 | l1 in enc' && l2 in enc' && Abs(l1) != Abs(l2)
      ensures enc'[l1] != enc'[l2] && enc'[l1] != Complement(enc'[l2])
    {
      if Abs(l1) != v && Abs(l2) != v {
        assert l1 in enc && l2 in enc;
      } else if Abs(l1) == v {
        assert l2 in enc && enc'[l2] == enc[l2];
        assert enc'[l1] == pos || enc'[l1] == neg;
        InUsedBy(enc, l2);
      } else {
        assert l1 in enc && enc'[l1] == enc[l1];
        assert enc'[l2] == pos || enc'[l2] == neg;
        InUsedBy(enc, l1);
      }
    }
  }

  /** With no variable to encode, the empty table is complete for every `n <= 0`. */
  lemma WellFormedNoVariables(enc: map<int, Strand>, k: int, n: int)
    requires WellFormed(enc, k) && (k == n || (k == 0 && n < 0))
    ensures WellFormed(enc, n)
  {
    if k != n {
      assert forall l :: l !in enc;
    }
  }

  /** Entering variable `v` extends a complete table for 1..v-1 to one for 1..v. */
  lemma WellFormedExtend(enc: map<int, Strand>, v: int, pos: Strand, neg: Strand)
    requires 1 <= v && WellFormed(enc, v - 1) && IsBlock(pos) && IsBlock(neg)
    ensures WellFormed(enc[v := pos][-v := neg], v)
    ensures forall l :: l in enc ==> Abs(l) != v
  {
    var enc' := enc[v := pos][-v := neg];
    forall l ensures l in enc' <==> l != 0 && -v <= l <= v {
      assert l in enc' <==> l in enc || l == v || l == -v;
    }
    forall l | l in enc' ensures IsBlock(enc'[l]) {
      if l != v && l != -v {
        assert enc'[l] == enc[l];
      }
    }
  }

  /** After the positive block is chosen, a block remains that differs from it and from its complement. */
  lemma AdmissibleBesidePositive(used: set<Strand>, pos: Strand)
    requires ClosedUnderComplement(used) && |used| <= 60 && IsACGT(pos)
    ensures exists b :: b in AllBlocks() && Admissible(b, used + {pos, Complement(pos)})
  {
    var withPos := used + {pos, Complement(pos)};
    ComplementInvolution(pos);
    assert |withPos| <= |used| + |{pos, Complement(pos)}|;
    AdmissibleBlockExists(withPos);
  }

  /** A block admissible beside the positive block is admissible, and differs from the positive block and its complement. */
  lemma AdmissibleApart(used: set<Strand>, pos: Strand, neg: Strand)
    requires IsACGT(pos) && IsACGT(neg) && Admissible(neg, used + {pos, Complement(pos)})
    ensures Admissible(neg, used) && neg != pos && neg != Complement(pos)
  {
  }

  /** A negative block that is neither the positive block nor its complement extends the pairing properties. */
  lemma PairsExtend(enc: map<int, Strand>, v: int, pos: Strand, neg: Strand)
    requires 1 <= v && WellFormed(enc, v - 1) && IsBlock(pos) && IsBlock(neg)
    requires PairDistinct(enc, v - 1) && ComplementFree(enc, v - 1)
    requires neg != pos && neg != Complement(pos)
    ensures WellFormed(enc[v := pos][-v := neg], v)
    ensures PairDistinct(enc[v := pos][-v := neg], v) && ComplementFree(enc[v := pos][-v := neg], v)
  {
    WellFormedExtend(enc, v, pos, neg);
    var enc' := enc[v := pos][-v := neg];
    forall u | 1 <= u <= v ensures enc'[u] != enc'[-u] && enc'[-u] != Complement(enc'[u]) {
      if u < v {
        assert u in enc && -u in enc && enc'[u] == enc[u] && enc'[-u] == enc[-u];
      } else {
        assert enc'[u] == pos && enc'[-u] == neg;
      }
    }
  }

  /**
   * The step of both encoding loops: entering variable `v` with two blocks
   * admissible against the used set keeps the table complete and separated,
   * and grows the used set by at most four blocks.
   */
  lemma EncodeVariable(enc: map<int, Strand>, v: int, pos: Strand, neg: Strand)
    requires 1 <= v && WellFormed(enc, v - 1) && Separated(enc)
    requires IsBlock(pos) && IsBlock(neg) && Admissible(pos, UsedBy(enc)) && Admissible(neg, UsedBy(enc))
    ensures WellFormed(enc[v := pos][-v := neg], v) && Separated(enc[v := pos][-v := neg])
    ensures UsedBy(enc[v := pos][-v := neg]) == UsedBy(enc) + {pos, Complement(pos), neg, Complement(neg)}
    ensures |UsedBy(enc[v := pos][-v := neg])| <= |UsedBy(enc)| + 4
  {
    WellFormedExtend(enc, v, pos, neg);
    SeparatedExtend(enc, v, pos, neg);
    UsedByGrows(enc, v, pos, neg);
    var used, added := UsedBy(enc), {pos, Complement(pos), neg, Complement(neg)};
    assert |added| <= 4;
    assert |used + added| <= |used| + |added|;
  }

  // ---------------------------------------------------------------------------
  // Clauses

  /** `-n <= lit <= n and lit != 0`. */
  predicate InRange(n: int, lit: int) {
    -n <= lit <= n && lit != 0
  }

  predicate ValidClause(n: int, c: seq<int>) {
    |c| == 3 && forall k :: 0 <= k < |c| ==> InRange(n, c[k])
  }

  predicate ValidClauses(n: int, cs: seq<seq<int>>) {
    forall i :: 0 <= i < |cs| ==> ValidClause(n, cs[i])
  }

  datatype ClauseError =
    | WrongLength     // "Each clause must contain exactly 3 literals"
    | InvalidLiteral  // "Invalid literal value"

  /** The two checks of `add_clause`, in order. */
  function CheckClause(n: int, literals: seq<int>): (r: Outcome<ClauseError>)
    ensures r == Pass <==> ValidClause(n, literals)
    ensures r == Fail(WrongLength) <==> |literals| != 3
    ensures r == Fail(InvalidLiteral) <==>
              |literals| == 3 && exists k :: 0 <= k < 3 && !InRange(n, literals[k])
  {
    if |literals| != 3 then Fail(WrongLength)
    else if !(forall k :: 0 <= k < |literals| ==> InRange(n, literals[k])) then Fail(InvalidLiteral)
    else Pass
  }

  /** With no variables every literal is out of range, so every list of literals is rejected. */
  lemma NoClauseWithoutVariables(n: int, literals: seq<int>)
    requires n <= 0
    ensures CheckClause(n, literals) != Pass
  {
    if |literals| == 3 {
      assert !InRange(n, literals[0]);
    }
  }

  /** The table has a block for every literal of `c`. */
  predicate Encoded(enc: map<int, Strand>, c: seq<int>) {
    forall k :: 0 <= k < |c| ==> c[k] != 0 && c[k] in enc
  }

  predicate AllEncoded(enc: map<int, Strand>, cs: seq<seq<int>>) {
    forall i :: 0 <= i < |cs| ==> Encoded(enc, cs[i])
  }

  /** A clause that `add_clause` accepts only names literals the table encodes. */
  lemma ValidClausesEncoded(enc: map<int, Strand>, n: int, cs: seq<seq<int>>)
    requires WellFormed(enc, n) && ValidClauses(n, cs)
    ensures AllEncoded(enc, cs)
  {
  }

  // ---------------------------------------------------------------------------
  // Assignments and their molecules

  function Pow2(n: nat): nat {
    if n == 0 then 1 else 2 * Pow2(n - 1)
  }

  function Prepend(b: bool, p: seq<seq<bool>>): (r: seq<seq<bool>>)
    ensures |r| == |p| && forall i :: 0 <= i < |p| ==> r[i] == [b] + p[i]
  {
    seq(|p|, i requires 0 <= i < |p| => [b] + p[i])
  }

  /** `itertools.product([False, True], repeat=n)`, in its order: the last position changes fastest. */
  function Product(n: nat): (r: seq<seq<bool>>)
    ensures |r| == Pow2(n)
    ensures forall i :: 0 <= i < |r| ==> |r[i]| == n
  {
    if n == 0 then [[]] else Prepend(false, Product(n - 1)) + Prepend(true, Product(n - 1))
  }

  lemma ProductLengths(n: nat)
    ensures forall a :: a in Product(n) ==> |a| == n
  {
  }

  /** No assignment is enumerated twice. */
  lemma {:induction false} ProductDistinct(n: nat)
    ensures Distinct(Product(n))
  {
    if n > 0 {
      ProductDistinct(n - 1);
      var p := Product(n - 1);
      var r := Product(n);
      assert r == Prepend(false, p) + Prepend(true, p);
      forall i, j | 0 <= i < j < |r| ensures r[i] != r[j] {
        if i < |p| <= j {
          assert r[i] == [false] + p[i] && r[j] == [true] + p[j - |p|];
          assert r[i][0] != r[j][0];
        } else if j < |p| {
          assert r[i] == [false] + p[i] && r[j] == [false] + p[j];
          assert r[i][1..] == p[i] && r[j][1..] == p[j];
        } else {
          assert r[i] == [true] + p[i - |p|] && r[j] == [true] + p[j - |p|];
          assert r[i][1..] == p[i - |p|] && r[j][1..] == p[j - |p|];
        }
      }
    }
  }

  /** Every boolean sequence of length `n` is one of the assignments enumerated. */
  lemma {:induction false} ProductComplete(n: nat, a: seq<bool>)
    requires |a| == n
    ensures a in Product(n)
  {
    if n > 0 {
      ProductComplete(n - 1, a[1..]);
      var p := Product(n - 1);
      PrependHas(a[0], p, a[1..]);
      assert a == [a[0]] + a[1..];
      assert Product(n) == Prepend(false, p) + Prepend(true, p);
    }
  }

  lemma PrependHas(b: bool, p: seq<seq<bool>>, x: seq<bool>)
    requires x in p
    ensures [b] + x in Prepend(b, p)
  {
    var i :| 0 <= i < |p| && p[i] == x;
    assert Prepend(b, p)[i] == [b] + x;
  }


  /** `var if value else -var`: the literal an assignment makes true for variable `v`. */
  function Lit(v: int, value: bool): int {
    if value then v else -v
  }

  /** The molecule of an assignment: the block of the chosen literal of each variable, in variable order. */
  function Encode(enc: map<int, Strand>, a: seq<bool>): Strand
    requires Covers(enc, |a|)
    decreases |a|
  {
    if a == [] then [] else Encode(enc, a[..|a| - 1]) + enc[Lit(|a|, a[|a| - 1])]
  }

  /** The molecule of an assignment is a valid strand of three nucleotides per variable. */
  lemma {:induction false} EncodeShape(enc: map<int, Strand>, a: seq<bool>)
    requires Covers(enc, |a|) && forall l :: l in enc ==> IsBlock(enc[l])
    ensures |Encode(enc, a)| == 3 * |a| && IsACGT(Encode(enc, a))
    decreases |a|
  {
    if a != [] {
      var init := a[..|a| - 1];
      EncodeShape(enc, init);
      ComplementConcat(Encode(enc, init), enc[Lit(|a|, a[|a| - 1])]);
    }
  }

  /** The molecule of an assignment has the block of variable `i + 1` at offset `3 * i`. */
  lemma {:induction false} EncodeBlock(enc: map<int, Strand>, a: seq<bool>, i: nat)
    requires Covers(enc, |a|) && (forall l :: l in enc ==> IsBlock(enc[l])) && i < |a|
    ensures |Encode(enc, a)| == 3 * |a|
    ensures Encode(enc, a)[3 * i..3 * i + 3] == enc[Lit(i + 1, a[i])]
    decreases |a|
  {
    EncodeShape(enc, a);
    var init := a[..|a| - 1];
    EncodeShape(enc, init);
    var m0, b := Encode(enc, init), enc[Lit(|a|, a[|a| - 1])];
    assert Encode(enc, a) == m0 + b;
    if i < |a| - 1 {
      EncodeBlock(enc, init, i);
      assert (m0 + b)[3 * i..3 * i + 3] == m0[3 * i..3 * i + 3];
      assert init[i] == a[i];
    } else {
      assert (m0 + b)[3 * i..3 * i + 3] == b;
    }
  }

  /** All blocks of an assignment's molecule at once. */
  lemma EncodeBlocks(enc: map<int, Strand>, a: seq<bool>)
    requires Covers(enc, |a|) && forall l :: l in enc ==> IsBlock(enc[l])
    ensures |Encode(enc, a)| == 3 * |a| && IsACGT(Encode(enc, a))
    ensures forall i :: 0 <= i < |a| ==> Encode(enc, a)[3 * i..3 * i + 3] == enc[Lit(i + 1, a[i])]
  {
    EncodeShape(enc, a);
    forall i | 0 <= i < |a| ensures Encode(enc, a)[3 * i..3 * i + 3] == enc[Lit(i + 1, a[i])] {
      EncodeBlock(enc, a, i);
    }
  }

  /** With the two blocks of every variable distinct, different assignments give different molecules. */
  lemma EncodeInjective(enc: map<int, Strand>, n: nat, a: seq<bool>, b: seq<bool>)
    requires WellFormed(enc, n) && PairDistinct(enc, n) && |a| == n && |b| == n
    ensures Encode(enc, a) == Encode(enc, b) ==> a == b
  {
    if Encode(enc, a) == Encode(enc, b) {
      EncodeBlocks(enc, a);
      EncodeBlocks(enc, b);
      forall i | 0 <= i < n ensures a[i] == b[i] {
        assert enc[Lit(i + 1, a[i])] == enc[Lit(i + 1, b[i])];
      }
    }
  }

  /** The molecules the initial tube is filled with. */
  function InitialMolecules(enc: map<int, Strand>, n: nat): set<Strand>
    requires Covers(enc, n)
  {
    set a | a in Product(n) :: Encode(enc, a)
  }

  /** Each initial molecule has length `3 * n` and spells the blocks of some assignment. */
  lemma InitialMoleculeShape(enc: map<int, Strand>, n: nat, m: Strand)
    requires WellFormed(enc, n) && m in InitialMolecules(enc, n)
    ensures |m| == 3 * n && IsACGT(m)
    ensures exists a: seq<bool> :: |a| == n && m == Encode(enc, a) &&
              forall v :: 1 <= v <= n ==> m[3 * (v - 1)..3 * v] == enc[if a[v - 1] then v else -v]
  {
    var a :| a in Product(n) && m == Encode(enc, a);
    EncodeBlocks(enc, a);
    forall v | 1 <= v <= n ensures m[3 * (v - 1)..3 * v] == enc[if a[v - 1] then v else -v] {
      assert m[3 * (v - 1)..3 * (v - 1) + 3] == enc[Lit(v, a[v - 1])];
    }
  }

  /** The loop building a molecule appends one block per variable. */
  lemma EncodePrefixStep(enc: map<int, Strand>, n: nat, a: seq<bool>, v: int)
    requires WellFormed(enc, n) && |a| == n && 1 <= v <= n
    ensures Encode(enc, a[..v]) == Encode(enc, a[..v - 1]) + enc[if a[v - 1] then v else -v]
  {
    var p := a[..v];
    assert p[..|p| - 1] == a[..v - 1];
    assert p[|p| - 1] == a[v - 1];
  }

  /** The strand the inner loop of `_generate_initial_tube` ends with is the assignment's valid molecule. */
  lemma AssignmentMolecule(enc: map<int, Strand>, n: nat, a: seq<bool>, s: Strand)
    requires WellFormed(enc, n) && |a| == n && s == Encode(enc, a[..n])
    ensures s == Encode(enc, a) && IsACGT(s)
  {
    assert a[..n] == a;
    EncodeShape(enc, a);
  }

  /** The molecules of the first `i` assignments of the enumeration. */
  function MoleculesUpTo(enc: map<int, Strand>, n: nat, i: nat): set<Strand>
    requires Covers(enc, n) && i <= Pow2(n)
  {
    if i == 0 then {} else MoleculesUpTo(enc, n, i - 1) + {Encode(enc, Product(n)[i - 1])}
  }

  /** After the whole enumeration the tube holds the initial molecules. */
  lemma InitialMoleculesUpTo(enc: map<int, Strand>, n: nat)
    requires Covers(enc, n)
    ensures MoleculesUpTo(enc, n, Pow2(n)) == InitialMolecules(enc, n)
  {
    var p := Product(n);
    MoleculesUpToInitial(enc, n, Pow2(n));
    forall m | m in InitialMolecules(enc, n) ensures m in MoleculesUpTo(enc, n, Pow2(n)) {
      var a :| a in p && m == Encode(enc, a);
      var j :| 0 <= j < |p| && p[j] == a;
      MoleculesUpToHas(enc, n, Pow2(n), j);
    }
  }

  /** The molecule of the `j`-th assignment is in the tube once the loop has passed it. */
  lemma {:induction false} MoleculesUpToHas(enc: map<int, Strand>, n: nat, i: nat, j: nat)
    requires Covers(enc, n) && j < i <= Pow2(n)
    ensures Encode(enc, Product(n)[j]) in MoleculesUpTo(enc, n, i)
    decreases i
  {
    if j < i - 1 {
      MoleculesUpToHas(enc, n, i - 1, j);
    }
  }

  /** The loop only ever adds initial molecules. */
  lemma {:induction false} MoleculesUpToInitial(enc: map<int, Strand>, n: nat, i: nat)
    requires Covers(enc, n) && i <= Pow2(n)
    ensures MoleculesUpTo(enc, n, i) <= InitialMolecules(enc, n)
  {
    if i > 0 {
      MoleculesUpToInitial(enc, n, i - 1);
      var a := Product(n)[i - 1];
      var before, init := MoleculesUpTo(enc, n, i - 1), InitialMolecules(enc, n);
      assert MoleculesUpTo(enc, n, i) == before + {Encode(enc, a)};
      assert Encode(enc, a) in init by {
        assert a in Product(n);
      }
    }
  }

  /** With the two blocks of every variable distinct, the initial tube holds 2^n molecules. */
  lemma InitialTubeSize(enc: map<int, Strand>, n: nat)
    requires WellFormed(enc, n) && PairDistinct(enc, n)
    ensures |InitialMolecules(enc, n)| == Pow2(n)
  {
    var t := MoleculeList(enc, n);
    MoleculeListDistinct(enc, n);
    DistinctCard(t);
    MoleculeListElements(enc, n);
  }

  /** The molecules of the enumeration, in order. */
  function MoleculeList(enc: map<int, Strand>, n: nat): (t: seq<Strand>)
    requires Covers(enc, n)
    ensures |t| == Pow2(n) && forall i :: 0 <= i < |t| ==> t[i] == Encode(enc, Product(n)[i])
  {
    seq(Pow2(n), i requires 0 <= i < Pow2(n) => Encode(enc, Product(n)[i]))
  }

  lemma MoleculeListDistinct(enc: map<int, Strand>, n: nat)
    requires WellFormed(enc, n) && PairDistinct(enc, n)
    ensures Distinct(MoleculeList(enc, n))
  {
    var p, t := Product(n), MoleculeList(enc, n);
    ProductDistinct(n);
    forall i, j | 0 <= i < j < |t| ensures t[i] != t[j] {
      EncodeInjective(enc, n, p[i], p[j]);
    }
  }

  lemma MoleculeListElements(enc: map<int, Strand>, n: nat)
    requires Covers(enc, n)
    ensures Elements(MoleculeList(enc, n)) == InitialMolecules(enc, n)
  {
    var p, t := Product(n), MoleculeList(enc, n);
    forall m | m in InitialMolecules(enc, n) ensures m in Elements(t) {
      var a :| a in p && m == Encode(enc, a);
      var i :| 0 <= i < |p| && p[i] == a;
      assert t[i] == m;
    }
  }


  // ---------------------------------------------------------------------------
  // Filtering

  /** Python's `s[i:j]` for `0 <= i <= j`: bounds past the end are clipped. */
  function Slice(s: Strand, i: nat, j: nat): Strand
    requires i <= j
  {
    if i >= |s| then [] else if j >= |s| then s[i..] else s[i..j]
  }

  lemma SliceWithin(s: Strand, i: nat, j: nat)
    requires i <= j <= |s|
    ensures Slice(s, i, j) == s[i..j]
  {
  }

  /** The test in `_process_clause`: the block at the position of `l`'s variable is `l`'s encoding. */
  predicate LiteralPresent(enc: map<int, Strand>, m: Strand, l: int)
    requires l != 0 && l in enc
  {
    Slice(m, (Abs(l) - 1) * 3, (Abs(l) - 1) * 3 + 3) == enc[l]
  }

  predicate SatisfiesClause(enc: map<int, Strand>, m: Strand, clause: seq<int>)
    requires Encoded(enc, clause)
  {
    exists k :: 0 <= k < |clause| && LiteralPresent(enc, m, clause[k])
  }

  /** The molecules of `tube` that carry the block of some literal of `clause`. */
  function Filter(enc: map<int, Strand>, tube: set<Strand>, clause: seq<int>): (r: set<Strand>)
    requires Encoded(enc, clause)
    ensures r <= tube
  {
    set m | m in tube && SatisfiesClause(enc, m, clause)
  }

  /** The tube left after filtering `start` by the first `k` clauses, in order. */
  function Survivors(enc: map<int, Strand>, start: set<Strand>, cs: seq<seq<int>>, k: nat): (r: set<Strand>)
    requires AllEncoded(enc, cs) && k <= |cs|
    ensures r <= start
  {
    if k == 0 then start
    else Filter(enc, Survivors(enc, start, cs, k - 1), cs[k - 1])
  }

  /** What `solve` reports: no prefix of the clause list empties the initial tube. */
  predicate SolveOutcome(enc: map<int, Strand>, n: nat, cs: seq<seq<int>>)
    requires Covers(enc, n) && AllEncoded(enc, cs)
  {
    forall k :: 1 <= k <= |cs| ==> Survivors(enc, InitialMolecules(enc, n), cs, k) != {}
  }

  // ---------------------------------------------------------------------------
  // Boolean meaning

  predicate LiteralTrue(a: seq<bool>, l: int)
    requires 0 < Abs(l) <= |a|
  {
    if l > 0 then a[l - 1] else !a[-l - 1]
  }

  predicate ClauseTrue(a: seq<bool>, c: seq<int>)
    requires ValidClause(|a|, c)
  {
    exists k :: 0 <= k < |c| && LiteralTrue(a, c[k])
  }

  predicate FormulaTrue(a: seq<bool>, cs: seq<seq<int>>)
    requires ValidClauses(|a|, cs)
  {
    forall i :: 0 <= i < |cs| ==> ClauseTrue(a, cs[i])
  }

  ghost predicate Satisfiable(n: nat, cs: seq<seq<int>>)
    requires ValidClauses(n, cs)
  {
    exists a: seq<bool> :: |a| == n && FormulaTrue(a, cs)
  }

  /** A literal's block is present in an assignment's molecule exactly when the assignment makes it true. */
  lemma LiteralPresentIffTrue(enc: map<int, Strand>, n: nat, a: seq<bool>, l: int)
    requires WellFormed(enc, n) && PairDistinct(enc, n) && |a| == n && InRange(n, l)
    ensures LiteralPresent(enc, Encode(enc, a), l) <==> LiteralTrue(a, l)
  {
    var v: int := Abs(l);
    var m := Encode(enc, a);
    var block := Slice(m, (v - 1) * 3, (v - 1) * 3 + 3);
    assert block == enc[Lit(v, a[v - 1])] by {
      EncodeBlock(enc, a, v - 1);
      SliceWithin(m, (v - 1) * 3, (v - 1) * 3 + 3);
    }
    assert LiteralPresent(enc, m, l) == (block == enc[l]);
    assert enc[v] != enc[-v];
    if l > 0 {
      if a[v - 1] { assert block == enc[l]; } else { assert block == enc[-v] && l == v; }
    } else {
      if a[v - 1] { assert block == enc[v] && l == -v; } else { assert block == enc[l]; }
    }
  }

  lemma ClauseTrueIffSatisfies(enc: map<int, Strand>, n: nat, a: seq<bool>, c: seq<int>)
    requires WellFormed(enc, n) && PairDistinct(enc, n) && |a| == n && ValidClause(n, c)
    ensures SatisfiesClause(enc, Encode(enc, a), c) <==> ClauseTrue(a, c)
  {
    forall k | 0 <= k < |c| ensures LiteralPresent(enc, Encode(enc, a), c[k]) <==> LiteralTrue(a, c[k]) {
      LiteralPresentIffTrue(enc, n, a, c[k]);
    }
  }

  /** The molecules of the assignments that satisfy every clause of `cs`. */
  function SatisfyingMolecules(enc: map<int, Strand>, n: nat, cs: seq<seq<int>>): set<Strand>
    requires Covers(enc, n) && ValidClauses(n, cs)
  {
    set a | a in Product(n) && FormulaTrue(a, cs) :: Encode(enc, a)
  }

  /** Filtering the initial tube by the first `k` clauses leaves the molecules of the assignments satisfying them. */
  lemma {:induction false} SurvivorsAreSatisfying(enc: map<int, Strand>, n: nat, cs: seq<seq<int>>, k: nat)
    requires WellFormed(enc, n) && PairDistinct(enc, n) && ValidClauses(n, cs) && k <= |cs|
    ensures AllEncoded(enc, cs) && ValidClauses(n, cs[..k])
    ensures Survivors(enc, InitialMolecules(enc, n), cs, k) == SatisfyingMolecules(enc, n, cs[..k])
    decreases k
  {
    ValidClausesEncoded(enc, n, cs);
    var p := cs[..k];
    assert forall i :: 0 <= i < k ==> p[i] == cs[i];
    if k == 0 {
      assert SatisfyingMolecules(enc, n, p) == InitialMolecules(enc, n);
    } else {
      SurvivorsAreSatisfying(enc, n, cs, k - 1);
      assert p[..k - 1] == cs[..k - 1];
      SatisfyingStep(enc, n, p);
    }
  }

  /** Filtering the molecules satisfying all but the last clause by the last one leaves those satisfying all. */
  lemma SatisfyingStep(enc: map<int, Strand>, n: nat, cs: seq<seq<int>>)
    requires WellFormed(enc, n) && PairDistinct(enc, n) && ValidClauses(n, cs) && cs != []
    ensures ValidClauses(n, cs[..|cs| - 1]) && Encoded(enc, cs[|cs| - 1])
    ensures Filter(enc, SatisfyingMolecules(enc, n, cs[..|cs| - 1]), cs[|cs| - 1]) == SatisfyingMolecules(enc, n, cs)
  {
    var prefix, c := cs[..|cs| - 1], cs[|cs| - 1];
    assert ValidClauses(n, prefix) && ValidClause(n, c);
    var before := SatisfyingMolecules(enc, n, prefix);
    forall m | m in Filter(enc, before, c) ensures m in SatisfyingMolecules(enc, n, cs) {
      var a :| a in Product(n) && FormulaTrue(a, prefix) && m == Encode(enc, a);
      ClauseTrueIffSatisfies(enc, n, a, c);
      FormulaTrueSnoc(a, cs);
    }
    forall m | m in SatisfyingMolecules(enc, n, cs) ensures m in Filter(enc, before, c) {
      var a :| a in Product(n) && FormulaTrue(a, cs) && m == Encode(enc, a);
      ClauseTrueIffSatisfies(enc, n, a, c);
      FormulaTrueSnoc(a, cs);
      assert m in before;
    }
  }

  /** An assignment satisfies a clause list iff it satisfies all but the last clause and the last. */
  lemma FormulaTrueSnoc(a: seq<bool>, cs: seq<seq<int>>)
    requires cs != [] && ValidClauses(|a|, cs)
    ensures ValidClauses(|a|, cs[..|cs| - 1])
    ensures FormulaTrue(a, cs) <==> FormulaTrue(a, cs[..|cs| - 1]) && ClauseTrue(a, cs[|cs| - 1])
  {
    var prefix := cs[..|cs| - 1];
    assert forall i :: 0 <= i < |prefix| ==> prefix[i] == cs[i];
  }

  /**
   * The correctness of the method: when the two blocks of every variable differ,
   * `solve` reports satisfiable exactly when some assignment satisfies every clause.
   */
  lemma SolveCorrect(enc: map<int, Strand>, n: nat, cs: seq<seq<int>>)
    requires WellFormed(enc, n) && PairDistinct(enc, n) && ValidClauses(n, cs)
    ensures AllEncoded(enc, cs)
    ensures SolveOutcome(enc, n, cs) <==> Satisfiable(n, cs)
  {
    ValidClausesEncoded(enc, n, cs);
    if Satisfiable(n, cs) {
      var a :| |a| == n && FormulaTrue(a, cs);
      ProductComplete(n, a);
      forall k | 1 <= k <= |cs| ensures Survivors(enc, InitialMolecules(enc, n), cs, k) != {} {
        var prefix := cs[..k];
        SurvivorsAreSatisfying(enc, n, cs, k);
        assert FormulaTrue(a, prefix) by {
          forall i | 0 <= i < k ensures ClauseTrue(a, prefix[i]) {
            assert prefix[i] == cs[i];
          }
        }
        assert Encode(enc, a) in SatisfyingMolecules(enc, n, prefix);
      }
    }
    if SolveOutcome(enc, n, cs) {
      if cs == [] {
        var a := seq(n, _ => false);
        assert FormulaTrue(a, cs);
      } else {
        SurvivorsAreSatisfying(enc, n, cs, |cs|);
        assert cs[..|cs|] == cs;
        var m :| m in SatisfyingMolecules(enc, n, cs);
        var a :| a in Product(n) && FormulaTrue(a, cs) && m == Encode(enc, a);
        assert |a| == n;
      }
    }
  }

  /** A clause prefix that empties the tube makes `solve` report false, and, with distinct pairs, the formula unsatisfiable. */
  lemma RejectedVerdict(enc: map<int, Strand>, n: nat, cs: seq<seq<int>>, k: nat)
    requires WellFormed(enc, n) && ValidClauses(n, cs) && AllEncoded(enc, cs) && 1 <= k <= |cs|
    requires Survivors(enc, InitialMolecules(enc, n), cs, k) == {}
    ensures !SolveOutcome(enc, n, cs)
    ensures PairDistinct(enc, n) ==> !Satisfiable(n, cs)
  {
    if PairDistinct(enc, n) {
      SolveCorrect(enc, n, cs);
    }
  }

  /** When no clause prefix empties the tube (so `solve` reports true) and the pairs are distinct, the formula is satisfiable. */
  lemma AcceptedVerdict(enc: map<int, Strand>, n: nat, cs: seq<seq<int>>)
    requires WellFormed(enc, n) && ValidClauses(n, cs) && AllEncoded(enc, cs)
    requires forall k :: 1 <= k <= |cs| ==> Survivors(enc, InitialMolecules(enc, n), cs, k) != {}
    ensures PairDistinct(enc, n) ==> Satisfiable(n, cs)
  {
    if PairDistinct(enc, n) {
      SolveCorrect(enc, n, cs);
    }
  }

  /** A molecule of the start tube that carries a literal of every clause survives the filtering. */
  lemma {:induction false} SurvivorKept(enc: map<int, Strand>, start: set<Strand>, cs: seq<seq<int>>, m: Strand, k: nat)
    requires AllEncoded(enc, cs) && m in start && k <= |cs|
    requires forall i :: 0 <= i < |cs| ==> SatisfiesClause(enc, m, cs[i])
    ensures m in Survivors(enc, start, cs, k)
    decreases k
  {
    if k > 0 {
      SurvivorKept(enc, start, cs, m, k - 1);
      assert SatisfiesClause(enc, m, cs[k - 1]);
    }
  }

  /** A molecule of the initial tube that satisfies every clause keeps `solve` from reporting unsatisfiable. */
  lemma SolveOutcomeWitness(enc: map<int, Strand>, n: nat, cs: seq<seq<int>>, m: Strand)
    requires Covers(enc, n) && AllEncoded(enc, cs) && m in InitialMolecules(enc, n)
    requires forall i :: 0 <= i < |cs| ==> SatisfiesClause(enc, m, cs[i])
    ensures SolveOutcome(enc, n, cs)
  {
    forall k | 1 <= k <= |cs| ensures m in Survivors(enc, InitialMolecules(enc, n), cs, k) {
      SurvivorKept(enc, InitialMolecules(enc, n), cs, m, k);
    }
  }

  /**
   * A satisfiable formula is always accepted, whatever blocks the encoding loop
   * drew: the molecule of a satisfying assignment carries, for every clause, the
   * block of a true literal at that literal's position.
   */
  lemma SatisfiableAccepted(enc: map<int, Strand>, n: nat, cs: seq<seq<int>>)
    requires WellFormed(enc, n) && ValidClauses(n, cs) && Satisfiable(n, cs)
    ensures AllEncoded(enc, cs) && SolveOutcome(enc, n, cs)
  {
    ValidClausesEncoded(enc, n, cs);
    var a :| |a| == n && FormulaTrue(a, cs);
    ProductComplete(n, a);
    var m := Encode(enc, a);
    EncodeBlocks(enc, a);
    forall i | 0 <= i < |cs| ensures SatisfiesClause(enc, m, cs[i]) {
      assert ClauseTrue(a, cs[i]);
      var k :| 0 <= k < |cs[i]| && LiteralTrue(a, cs[i][k]);
      TrueLiteralPresent(enc, n, a, cs[i][k]);
    }
    SolveOutcomeWitness(enc, n, cs, m);
  }

  /** The block of a literal the assignment makes true sits at that literal's position in the assignment's molecule. */
  lemma TrueLiteralPresent(enc: map<int, Strand>, n: nat, a: seq<bool>, l: int)
    requires WellFormed(enc, n) && |a| == n && InRange(n, l) && LiteralTrue(a, l)
    ensures LiteralPresent(enc, Encode(enc, a), l)
  {
    var v: int := Abs(l);
    var m := Encode(enc, a);
    EncodeBlock(enc, a, v - 1);
    SliceWithin(m, (v - 1) * 3, (v - 1) * 3 + 3);
    assert Lit(v, a[v - 1]) == l;
  }

  /** Filtering never grows the tube: more clauses leave a subset of what fewer leave. */
  lemma {:induction false} SurvivorsShrink(enc: map<int, Strand>, start: set<Strand>, cs: seq<seq<int>>, j: nat, k: nat)
    requires AllEncoded(enc, cs) && j <= k <= |cs|
    ensures Survivors(enc, start, cs, k) <= Survivors(enc, start, cs, j)
    decreases k - j
  {
    if j < k {
      SurvivorsShrink(enc, start, cs, j, k - 1);
    }
  }

  /** `solve` reports unsatisfiable exactly when the whole clause list empties the tube (given at least one clause). */
  lemma SolveOutcomeIsFinalTube(enc: map<int, Strand>, n: nat, cs: seq<seq<int>>)
    requires Covers(enc, n) && AllEncoded(enc, cs) && cs != []
    ensures SolveOutcome(enc, n, cs) <==> Survivors(enc, InitialMolecules(enc, n), cs, |cs|) != {}
  {
    forall k | 1 <= k <= |cs|
      ensures Survivors(enc, InitialMolecules(enc, n), cs, |cs|) <= Survivors(enc, InitialMolecules(enc, n), cs, k)
    {
      SurvivorsShrink(enc, InitialMolecules(enc, n), cs, k, |cs|);
    }
  }

  // ---------------------------------------------------------------------------
  // The cases of `test_solver`, and the same-variable collision

  const TestOneClauses: seq<seq<int>> := [[1, 2, 3], [-1, 2, 3]]
  const TestTwoClauses: seq<seq<int>> := [[1, 1, 2], [-1, -1, -2], [1, -2, -2], [-1, 2, 2]]

  /** The first test formula is satisfiable (by x2 = true). */
  lemma TestOneSatisfiable()
    ensures ValidClauses(3, TestOneClauses) && Satisfiable(3, TestOneClauses)
  {
    var a := [false, true, false];
    assert LiteralTrue(a, TestOneClauses[0][1]) && LiteralTrue(a, TestOneClauses[1][1]);
    assert FormulaTrue(a, TestOneClauses);
  }

  /** The second test formula is unsatisfiable: each of the four assignments falsifies one clause. */
  lemma TestTwoUnsatisfiable()
    ensures ValidClauses(2, TestTwoClauses) && !Satisfiable(2, TestTwoClauses)
  {
    var cs := TestTwoClauses;
    forall a: seq<bool> | |a| == 2 ensures !FormulaTrue(a, cs) {
      var i := if a[0] && a[1] then 1 else if a[0] then 3 else if a[1] then 2 else 0;
      assert !ClauseTrue(a, cs[i]) by {
        forall k | 0 <= k < 3 ensures !LiteralTrue(a, cs[i][k]) {
        }
      }
    }
  }

  /**
   * `solve` accepts the first formula whatever blocks the encoding loop draws, and
   * rejects the second whenever the two blocks of each variable differ.
   */
  lemma TestVerdicts(enc1: map<int, Strand>, enc2: map<int, Strand>)
    requires WellFormed(enc1, 3)
    requires WellFormed(enc2, 2) && PairDistinct(enc2, 2)
    ensures AllEncoded(enc1, TestOneClauses) && SolveOutcome(enc1, 3, TestOneClauses)
    ensures AllEncoded(enc2, TestTwoClauses) && !SolveOutcome(enc2, 2, TestTwoClauses)
  {
    TestOneSatisfiable();
    SatisfiableAccepted(enc1, 3, TestOneClauses);
    TestTwoUnsatisfiable();
    SolveCorrect(enc2, 2, TestTwoClauses);
  }

  const CollisionClauses: seq<seq<int>> := [[1, 1, 1], [-1, -1, -1]]
  const CollisionTable: map<int, Strand> := map[1 := "AAA", -1 := "AAA"]

  /** Both draws for variable 1 may return "AAA"; the resulting table is well-formed and separated. */
  lemma CollisionTableDrawn()
    ensures IsBlock("AAA") && Admissible("AAA", UsedBy(map[]))
    ensures CollisionTable == map[][1 := "AAA"][-1 := "AAA"]
    ensures WellFormed(CollisionTable, 1) && Separated(CollisionTable)
    ensures !PairDistinct(CollisionTable, 1)
  {
    var enc := CollisionTable;
    assert forall l :: l in enc <==> l == 1 || l == -1;
    assert enc[1] == enc[-1];
  }

  /** The molecule of the assignment x1 = false is the block of `not x1`. */
  lemma CollisionMoleculeInitial(enc: map<int, Strand>)
    requires WellFormed(enc, 1)
    ensures enc[-1] in InitialMolecules(enc, 1)
  {
    ProductComplete(1, [false]);
    assert [false][..0] == [];
    assert Encode(enc, [false]) == enc[-1];
  }

  /** A molecule carrying the block of a clause's first literal at its position satisfies the clause. */
  lemma FirstLiteralPresent(enc: map<int, Strand>, m: Strand, c: seq<int>)
    requires Encoded(enc, c) && |c| > 0 && Abs(c[0]) == 1 && |m| == 3 && m == enc[c[0]]
    ensures SatisfiesClause(enc, m, c)
  {
    SliceWithin(m, 0, 3);
    assert LiteralPresent(enc, m, c[0]);
  }

  /**
   * When both blocks of variable 1 coincide, no clause over that variable removes
   * the block's molecule: `solve` accepts every clause list over one variable.
   */
  lemma CollisionSurvives(enc: map<int, Strand>, cs: seq<seq<int>>)
    requires WellFormed(enc, 1) && enc[1] == enc[-1] && ValidClauses(1, cs)
    ensures AllEncoded(enc, cs) && SolveOutcome(enc, 1, cs)
  {
    var m := enc[-1];
    ValidClausesEncoded(enc, 1, cs);
    CollisionMoleculeInitial(enc);
    forall i | 0 <= i < |cs| ensures SatisfiesClause(enc, m, cs[i]) {
      assert InRange(1, cs[i][0]);
      FirstLiteralPresent(enc, m, cs[i]);
    }
    SolveOutcomeWitness(enc, 1, cs, m);
  }

  /** No assignment satisfies both `x1` and `not x1`. */
  lemma CollisionUnsatisfiable()
    ensures ValidClauses(1, CollisionClauses) && !Satisfiable(1, CollisionClauses)
  {
    var cs := CollisionClauses;
    forall a: seq<bool> | |a| == 1 ensures !FormulaTrue(a, cs) {
      var i := if a[0] then 1 else 0;
      assert !ClauseTrue(a, cs[i]) by {
        forall k | 0 <= k < 3 ensures !LiteralTrue(a, cs[i][k]) {
        }
      }
    }
  }

  /**
   * The encoding loop as written may give both literals of variable 1 the block
   * "AAA": each draw is checked against the same empty used set. The table is
   * well-formed and separated, yet with the clauses x1 and not-x1 the tube never
   * runs empty, although no assignment satisfies both.
   */
  lemma SameVariableCollision()
    ensures IsBlock("AAA") && Admissible("AAA", UsedBy(map[]))
    ensures WellFormed(CollisionTable, 1) && Separated(CollisionTable)
    ensures ValidClauses(1, CollisionClauses) && AllEncoded(CollisionTable, CollisionClauses)
    ensures SolveOutcome(CollisionTable, 1, CollisionClauses) && !Satisfiable(1, CollisionClauses)
  {
    CollisionTableDrawn();
    CollisionUnsatisfiable();
    CollisionSurvives(CollisionTable, CollisionClauses);
  }

  // ---------------------------------------------------------------------------
  // Tube labels (diagnostic only)

  function NatToString(k: nat): string
    decreases k
  {
    if k < 10 then ["0123456789"[k]] else NatToString(k / 10) + ["0123456789"[k % 10]]
  }

  function IntToString(k: int): string {
    if k < 0 then "-" + NatToString(-k) else NatToString(k)
  }

  /** Python's `str` of a list of integers, such as `[1, -2, 3]`. */
  function ListRepr(c: seq<int>): string {
    "[" + ListItems(c) + "]"
  }

  function ListItems(c: seq<int>): string {
    if c == [] then ""
    else if |c| == 1 then IntToString(c[0])
    else IntToString(c[0]) + ", " + ListItems(c[1..])
  }

  // ---------------------------------------------------------------------------
  // The solver object

  datatype SolverError =
    | NegativeRepeat  // `itertools.product` with a negative `repeat` raises ValueError

  class MolecularThreeSatSolver {
    const numVariables: int
    var variableEncodings: map<int, Strand>
    var clauses: seq<seq<int>>

    /**
     * The encoding table is complete and separated, and every stored clause
     * passed `add_clause`. Nothing is said of the two blocks of one variable.
     */
    ghost predicate Valid()
      reads this
    {
      WellFormed(variableEncodings, numVariables) &&
      Separated(variableEncodings) &&
      ValidClauses(numVariables, clauses)
    }

    constructor (numVariables: int)
      requires numVariables <= MaxVariables
      ensures this.numVariables == numVariables && clauses == []
      ensures Valid()
    {
      this.numVariables := numVariables;
      variableEncodings := map[];
      clauses := [];
      new;
      InitializeEncodings();
    }

    /** The constructor with the corrected encoding loop: the two blocks of every variable differ. */
    constructor WithDistinctBlocks(numVariables: int)
      requires numVariables <= MaxVariables
      ensures this.numVariables == numVariables && clauses == []
      ensures Valid()
      ensures PairDistinct(variableEncodings, numVariables) && ComplementFree(variableEncodings, numVariables)
    {
      this.numVariables := numVariables;
      variableEncodings := map[];
      clauses := [];
      new;
      InitializeEncodingsDistinct();
    }

    /**
     * `_initialize_encodings`. Each `while True` retry loop stops at the first
     * draw that `_is_valid_sequence` accepts; the draw is modelled by choosing any
     * block that is admissible against the used set. Both blocks of a variable are
     * checked against the same used set, so they may coincide (or be complements).
     */
    method InitializeEncodings()
      requires numVariables <= MaxVariables && variableEncodings == map[]
      modifies this`variableEncodings
      ensures WellFormed(variableEncodings, numVariables) && Separated(variableEncodings)
    {
      var used: set<Strand> := {};
      var v := 1;
      while v <= numVariables
        invariant if numVariables >= 0 then 1 <= v <= numVariables + 1 else v == 1
        invariant WellFormed(variableEncodings, v - 1) && Separated(variableEncodings)
        invariant used == UsedBy(variableEncodings) && |used| <= 4 * (v - 1)
      {
        UsedByClosed(variableEncodings);
        AdmissibleBlockExists(used);
        var posSeq :| posSeq in AllBlocks() && Admissible(posSeq, used);
        var negSeq :| negSeq in AllBlocks() && Admissible(negSeq, used);
        EncodeVariable(variableEncodings, v, posSeq, negSeq);
        variableEncodings := variableEncodings[v := posSeq][-v := negSeq];
        used := used + {posSeq, Complement(posSeq), negSeq, Complement(negSeq)};
        v := v + 1;
      }
      WellFormedNoVariables(variableEncodings, v - 1, numVariables);
    }

    /** The encoding loop with the negative block also checked against the positive one. */
    method InitializeEncodingsDistinct()
      requires numVariables <= MaxVariables && variableEncodings == map[]
      modifies this`variableEncodings
      ensures WellFormed(variableEncodings, numVariables) && Separated(variableEncodings)
      ensures PairDistinct(variableEncodings, numVariables) && ComplementFree(variableEncodings, numVariables)
    {
      var used: set<Strand> := {};
      var v := 1;
      while v <= numVariables
        invariant if numVariables >= 0 then 1 <= v <= numVariables + 1 else v == 1
        invariant WellFormed(variableEncodings, v - 1) && Separated(variableEncodings)
        invariant used == UsedBy(variableEncodings) && |used| <= 4 * (v - 1)
        invariant PairDistinct(variableEncodings, v - 1) && ComplementFree(variableEncodings, v - 1)
      {
        UsedByClosed(variableEncodings);
        AdmissibleBlockExists(used);
        var posSeq :| posSeq in AllBlocks() && Admissible(posSeq, used);
        var withPos := used + {posSeq, Complement(posSeq)};
        AdmissibleBesidePositive(used, posSeq);
        var negSeq :| negSeq in AllBlocks() && Admissible(negSeq, withPos);
        AdmissibleApart(used, posSeq, negSeq);
        EncodeVariable(variableEncodings, v, posSeq, negSeq);
        PairsExtend(variableEncodings, v, posSeq, negSeq);
        variableEncodings := variableEncodings[v := posSeq][-v := negSeq];
        used := used + {posSeq, Complement(posSeq), negSeq, Complement(negSeq)};
        v := v + 1;
      }
      WellFormedNoVariables(variableEncodings, v - 1, numVariables);
    }

    /** `_is_valid_sequence`: the block is rejected if it, or its complement, or a similar strand is used. */
    method IsValidSequence(s: Strand, usedSequences: set<Strand>) returns (ok: bool)
      requires IsACGT(s)
      ensures ok <==> Admissible(s, usedSequences)
    {
      if s in usedSequences {
        return false;
      }
      var complement := Complement(s);
      if complement in usedSequences {
        return false;
      }
      var rest := usedSequences;
      while rest != {}
        invariant rest <= usedSequences
        invariant forall u :: u in usedSequences - rest ==> !AreSequencesSimilar(s, u)
        decreases rest
      {
        var usedSeq :| usedSeq in rest;
        if AreSequencesSimilar(s, usedSeq) {
          return false;
        }
        rest := rest - {usedSeq};
      }
      return true;
    }

    /** `add_clause`: rejects a clause without exactly three literals or with a literal out of range; otherwise appends it. */
    method AddClause(literals: seq<int>) returns (r: Outcome<ClauseError>)
      requires Valid()
      modifies this`clauses
      ensures Valid()
      ensures r == CheckClause(numVariables, literals)
      ensures clauses == if r == Pass then old(clauses) + [literals] else old(clauses)
    {
      if |literals| != 3 {
        return Fail(WrongLength);
      }
      if !(forall k :: 0 <= k < |literals| ==> InRange(numVariables, literals[k])) {
        return Fail(InvalidLiteral);
      }
      clauses := clauses + [literals];
      return Pass;
    }

    /**
     * `_generate_initial_tube`: one molecule per assignment, in `itertools.product` order.
     * The tube is a set of strands. Python's tube holds one `DNASequence` object per
     * assignment, told apart by identity; the two agree whenever the strands differ,
     * which `InitialTubeSize` shows when the two blocks of every variable differ. Only
     * when some `enc[v] == enc[-v]` does Python's tube hold more objects than strands.
     */
    method GenerateInitialTube() returns (r: Result<MolecularTube, SolverError>)
      requires Valid()
      ensures r.Failure? <==> numVariables < 0
      ensures r.Success? ==> fresh(r.value) && r.value.name == "T0"
      ensures r.Success? ==> r.value.molecules == InitialMolecules(variableEncodings, numVariables)
    {
      if numVariables < 0 {
        return Failure(NegativeRepeat);
      }
      ghost var enc := variableEncodings;
      var tube := new MolecularTube("T0");
      var assignments := Product(numVariables);
      var i := 0;
      while i < |assignments|
        invariant 0 <= i <= |assignments| && fresh(tube) && tube.name == "T0"
        invariant tube.molecules == MoleculesUpTo(enc, numVariables, i)
      {
        var sequence := EncodeAssignment(assignments[i]);
        var molecule := NewDnaSequence(sequence);
        tube.Add(molecule.value.sequence);
        i := i + 1;
      }
      InitialMoleculesUpTo(enc, numVariables);
      return Success(tube);
    }

    /** The inner loop of `_generate_initial_tube`: the blocks of the assignment's literals, concatenated in variable order. */
    method EncodeAssignment(assignment: seq<bool>) returns (sequence: Strand)
      requires Valid() && |assignment| == numVariables
      ensures sequence == Encode(variableEncodings, assignment) && IsACGT(sequence)
    {
      sequence := "";
      var v := 1;
      while v <= numVariables
        invariant 1 <= v <= numVariables + 1
        invariant sequence == Encode(variableEncodings, assignment[..v - 1])
      {
        EncodePrefixStep(variableEncodings, numVariables, assignment, v);
        sequence := sequence + variableEncodings[if assignment[v - 1] then v else -v];
        v := v + 1;
      }
      AssignmentMolecule(variableEncodings, numVariables, assignment, sequence);
    }

    /** The inner loop of `_process_clause`: does the molecule carry the block of one of the clause's literals? */
    method CarriesLiteral(molecule: Strand, clause: seq<int>) returns (satisfiesClause: bool)
      requires Encoded(variableEncodings, clause)
      ensures satisfiesClause <==> SatisfiesClause(variableEncodings, molecule, clause)
    {
      satisfiesClause := false;
      var k := 0;
      while k < |clause|
        invariant 0 <= k <= |clause|
        invariant forall j :: 0 <= j < k ==> !LiteralPresent(variableEncodings, molecule, clause[j])
      {
        var literal := clause[k];
        var pos := (Abs(literal) - 1) * 3;
        var targetSeq := variableEncodings[literal];
        if Slice(molecule, pos, pos + 3) == targetSeq {
          satisfiesClause := true;
          break;
        }
        k := k + 1;
      }
    }

    /** `_process_clause`: a new tube with the molecules that carry the block of one of the clause's literals. */
    method ProcessClause(tube: MolecularTube, clause: seq<int>) returns (result: MolecularTube)
      requires Encoded(variableEncodings, clause)
      ensures fresh(result) && result.name == "clause_" + ListRepr(clause)
      ensures result.molecules == Filter(variableEncodings, tube.molecules, clause)
    {
      result := new MolecularTube("clause_" + ListRepr(clause));
      var remaining := tube.molecules;
      while remaining != {}
        invariant remaining <= tube.molecules && result.name == "clause_" + ListRepr(clause)
        invariant result.molecules == Filter(variableEncodings, tube.molecules - remaining, clause)
        decreases remaining
      {
        var molecule :| molecule in remaining;
        var satisfiesClause := CarriesLiteral(molecule, clause);
        if satisfiesClause {
          result.Add(molecule);
        }
        remaining := remaining - {molecule};
      }
    }

    /**
     * `solve`: filter the initial tube clause by clause and report unsatisfiable as
     * soon as the tube is empty. `processed` is the number of clauses filtered.
     */
    method Solve() returns (r: Result<bool, SolverError>, ghost processed: nat)
      requires Valid()
      ensures r.Failure? <==> numVariables < 0
      ensures r.Success? ==> AllEncoded(variableEncodings, clauses)
      ensures r.Success? ==> (r.value <==> SolveOutcome(variableEncodings, numVariables, clauses))
      ensures r.Success? && PairDistinct(variableEncodings, numVariables) ==>
                (r.value <==> Satisfiable(numVariables, clauses))
      ensures r.Success? && Satisfiable(numVariables, clauses) ==> r.value
      ensures r.Success? && clauses == [] ==> r.value
      ensures r.Success? && r.value ==> processed == |clauses|
      ensures r.Success? && !r.value ==> 1 <= processed <= |clauses|
      ensures r.Success? && !r.value ==>
                Survivors(variableEncodings, InitialMolecules(variableEncodings, numVariables), clauses, processed) == {}
      ensures r.Success? && !r.value ==>
                forall k :: 1 <= k < processed ==>
                  Survivors(variableEncodings, InitialMolecules(variableEncodings, numVariables), clauses, k) != {}
    {
      var initial := GenerateInitialTube();
      if initial.Failure? {
        return Failure(initial.error), 0;
      }
      ValidClausesEncoded(variableEncodings, numVariables, clauses);
      var verdict;
      verdict, processed := FilterByClauses(initial.value, InitialMolecules(variableEncodings, numVariables));
      if verdict {
        AcceptedVerdict(variableEncodings, numVariables, clauses);
      } else {
        RejectedVerdict(variableEncodings, numVariables, clauses, processed);
        if Satisfiable(numVariables, clauses) {
          SatisfiableAccepted(variableEncodings, numVariables, clauses);
        }
      }
      return Success(verdict), processed;
    }

    /**
     * The loop of `solve`: filter the tube clause by clause and stop at the first
     * empty tube. `processed` is the number of clauses filtered.
     */
    method FilterByClauses(initial: MolecularTube, ghost start: set<Strand>) returns (verdict: bool, ghost processed: nat)
      requires AllEncoded(variableEncodings, clauses) && initial.molecules == start
      ensures verdict ==> processed == |clauses|
      ensures !verdict ==> 1 <= processed <= |clauses|
      ensures forall k :: 1 <= k <= |clauses| && (verdict || k < processed) ==>
                Survivors(variableEncodings, start, clauses, k) != {}
      ensures !verdict ==> Survivors(variableEncodings, start, clauses, processed) == {}
    {
      ghost var enc, cs := variableEncodings, clauses;
      var currentTube := initial;
      var i := 0;
      verdict := true;
      while i < |clauses|
        invariant 0 <= i <= |cs| && enc == variableEncodings && cs == clauses
        invariant currentTube.molecules == Survivors(enc, start, cs, i)
        invariant forall k :: 1 <= k <= i ==> Survivors(enc, start, cs, k) != {}
      {
        currentTube := ProcessClause(currentTube, clauses[i]);
        var empty := currentTube.IsEmpty();
        if empty {
          verdict := false;
          break;
        }
        i := i + 1;
      }
      processed := if verdict then |cs| else i + 1;
    }
  }
}
