/**
 * Strands over the nucleotide alphabet A, C, G, T: Watson-Crick pairing, the
 * `DNASequence` value (a strand with its derived complementary strand),
 * the pairing test between two strands and restriction-enzyme cleavage.
 */
module Dna {
  import opened Wrappers

  type Strand = seq<char>

  /** One of the four nucleotides accepted by `is_valid_sequence`. */
  predicate IsBase(c: char) {
    c == 'A' || c == 'C' || c == 'G' || c == 'T'
  }

  predicate IsACGT(s: Strand) {
    forall i :: 0 <= i < |s| ==> IsBase(s[i])
  }

  /** The dictionary `complement_pairs` read with `.get`: `None` for a key it lacks. */
  function ComplementPairs(b: char): Option<char> {
    if b == 'A' then Some('T')
    else if b == 'T' then Some('A')
    else if b == 'C' then Some('G')
    else if b == 'G' then Some('C')
    else None
  }

  /** The pairing is defined exactly on the bases, never fixes a base, and undoes itself. */
  lemma PairingIsInvolution(b: char)
    ensures ComplementPairs(b).Some? <==> IsBase(b)
    ensures ComplementPairs(b).Some? ==>
              var p := ComplementPairs(b).value;
              IsBase(p) && p != b && ComplementPairs(p) == Some(b)
  {
  }

  /**
   * `_generate_complementary_strand`: the partner of every base, left to right.
   * The dictionary lookup raises `KeyError` at the first character that is not a
   * base; the failure carries that character.
   */
  function GenerateComplementaryStrand(s: Strand): (r: Result<Strand, char>)
    ensures r.Success? <==> IsACGT(s)
    ensures r.Success? ==>
              |r.value| == |s| &&
              forall i :: 0 <= i < |s| ==> ComplementPairs(s[i]) == Some(r.value[i])
    ensures r.Failure? ==>
              !IsBase(r.error) &&
              exists k :: 0 <= k < |s| && s[k] == r.error && IsACGT(s[..k])
  {
    if s == [] then Success([])
    else
      match ComplementPairs(s[0])
      case None => Failure(s[0])
      case Some(c) =>
        match GenerateComplementaryStrand(s[1..])
        case Failure(e) =>
          assert forall i :: 0 <= i < |s| - 1 ==> s[1..][i] == s[i + 1];
          ghost var k :| 0 <= k < |s| - 1 && s[1..][k] == e && IsACGT(s[1..][..k]);
          assert s[..k + 1] == [s[0]] + s[1..][..k];
          Failure(e)
        case Success(rest) => Success([c] + rest)
  }

  /** The complementary strand of a strand known to be valid. */
  function Complement(s: Strand): Strand
    requires IsACGT(s)
  {
    GenerateComplementaryStrand(s).value
  }

  /** Complementing is an involution on valid strands and keeps them valid. */
  lemma ComplementInvolution(s: Strand)
    requires IsACGT(s)
    ensures IsACGT(Complement(s)) && |Complement(s)| == |s|
    ensures Complement(Complement(s)) == s
  {
    var c := Complement(s);
    forall i | 0 <= i < |s| ensures IsBase(c[i]) && ComplementPairs(c[i]) == Some(s[i]) {
      PairingIsInvolution(s[i]);
    }
    var d := Complement(c);
    assert |d| == |s|;
    forall i | 0 <= i < |s| ensures d[i] == s[i] {
      assert ComplementPairs(c[i]) == Some(d[i]);
    }
  }

  /** No base pairs with itself, so a non-empty valid strand differs from its complement. */
  lemma ComplementDiffers(s: Strand)
    requires IsACGT(s) && |s| > 0
    ensures Complement(s) != s
  {
    PairingIsInvolution(s[0]);
    assert ComplementPairs(s[0]) == Some(Complement(s)[0]);
  }

  /** Complementing a concatenation complements the parts. */
  lemma ComplementConcat(a: Strand, b: Strand)
    requires IsACGT(a) && IsACGT(b)
    ensures IsACGT(a + b) && Complement(a + b) == Complement(a) + Complement(b)
  {
    var ab := a + b;
    assert forall i :: 0 <= i < |ab| ==> ab[i] == if i < |a| then a[i] else b[i - |a|];
    var lhs, rhs := Complement(ab), Complement(a) + Complement(b);
    assert |lhs| == |rhs|;
    forall i | 0 <= i < |ab| ensures lhs[i] == rhs[i] {
      assert ComplementPairs(ab[i]) == Some(lhs[i]);
      if i < |a| {
        assert ComplementPairs(a[i]) == Some(rhs[i]);
      } else {
        assert ComplementPairs(b[i - |a|]) == Some(rhs[i]);
      }
    }
  }

  datatype DnaError =
    | KeyError(key: char)   // a dictionary lookup of a character that is not a base
    | InvalidSequence       // "Invalid DNA sequence. Only A, C, G, T allowed."
    | EmptySeparator        // `str.split` with an empty separator

  /** `is_valid_sequence`: raises unless every character is a base. */
  function IsValidSequence(s: Strand): (r: Outcome<DnaError>)
    ensures r == Pass <==> IsACGT(s)
    ensures r.Fail? ==> r.error == InvalidSequence
  {
    if forall i :: 0 <= i < |s| ==> s[i] in {'A', 'C', 'G', 'T'} then Pass else Fail(InvalidSequence)
  }

  /**
   * A constructed `DNASequence`. The class defines no equality of its own, so Python
   * compares instances by identity; here two values with the same strand are equal.
   */
  datatype DnaSequence = DnaSequence(sequence: Strand, complementaryStrand: Strand)

  /**
   * The constructor as written: the complementary strand is computed first, so an
   * invalid character raises `KeyError` from the lookup and the validity check that
   * follows never gets to raise.
   */
  function NewDnaSequence(s: Strand): (r: Result<DnaSequence, DnaError>)
    ensures r.Success? <==> IsACGT(s)
    ensures r.Success? ==> r.value.sequence == s && r.value.complementaryStrand == Complement(s)
    ensures r.Failure? ==> r.error.KeyError? && !IsBase(r.error.key) && r.error.key in s
  {
    match GenerateComplementaryStrand(s)
    case Failure(k) => Failure(KeyError(k))
    case Success(c) =>
      match IsValidSequence(s)
      case Fail(e) => Failure(e)
      case Pass => Success(DnaSequence(s, c))
  }

  /** As written, constructing from a bad strand never reports `InvalidSequence`. */
  lemma ConstructorNeverReportsInvalidSequence(s: Strand)
    ensures NewDnaSequence(s) != Failure(InvalidSequence)
    ensures NewDnaSequence("AXG") == Failure(KeyError('X'))
  {
    var r := GenerateComplementaryStrand("AXG");
    assert "AXG"[0] == 'A' && "AXG"[1..] == "XG";
    assert GenerateComplementaryStrand("XG") == Failure('X');
    assert r == Failure('X');
  }

  /** The constructor with the validity check done before the complement is computed. */
  function NewDnaSequenceChecked(s: Strand): (r: Result<DnaSequence, DnaError>)
    ensures r.Success? <==> IsACGT(s)
    ensures r.Success? ==> r.value.sequence == s && r.value.complementaryStrand == Complement(s)
    ensures r.Failure? ==> r.error == InvalidSequence
  {
    match IsValidSequence(s)
    case Fail(e) => Failure(e)
    case Pass => Success(DnaSequence(s, Complement(s)))
  }

  /** `strand2[i]` is the partner of `strand1[i]` at every position, and the lengths agree. */
  predicate Paired(strand1: Strand, strand2: Strand) {
    |strand1| == |strand2| &&
    forall i :: 0 <= i < |strand1| ==> ComplementPairs(strand1[i]) == Some(strand2[i])
  }

  /** Pairing with a valid strand means being its complement; nothing pairs with an invalid one. */
  lemma PairedIsComplement(strand1: Strand, strand2: Strand)
    ensures IsACGT(strand1) ==> (Paired(strand1, strand2) <==> strand2 == Complement(strand1))
    ensures !IsACGT(strand1) ==> !Paired(strand1, strand2)
  {
    if IsACGT(strand1) && Paired(strand1, strand2) {
      var c := Complement(strand1);
      forall i | 0 <= i < |c| ensures c[i] == strand2[i] {
        assert ComplementPairs(strand1[i]) == Some(c[i]);
      }
    }
    if !IsACGT(strand1) {
      var k :| 0 <= k < |strand1| && !IsBase(strand1[k]);
      PairingIsInvolution(strand1[k]);
    }
  }

  /** `isDnaSequense`: does `strand2` pair with `strand1` base by base? */
  method IsDnaSequence(strand1: Strand, strand2: Strand) returns (b: bool)
    ensures b <==> Paired(strand1, strand2)
    ensures IsACGT(strand1) ==> (b <==> strand2 == Complement(strand1))
    ensures !IsACGT(strand1) ==> !b
  {
    PairedIsComplement(strand1, strand2);
    if |strand1| != |strand2| {
      return false;
    }
    var i := 0;
    while i < |strand1|
      invariant 0 <= i <= |strand1|
      invariant forall k :: 0 <= k < i ==> ComplementPairs(strand1[k]) == Some(strand2[k])
    {
      if ComplementPairs(strand1[i]) != Some(strand2[i]) {
        return false;
      }
      i := i + 1;
    }
    return true;
  }

  // ---------------------------------------------------------------------------
  // Cleavage

  /** `e` occurs in `s` starting at offset `i`. */
  predicate OccursAt(s: Strand, e: Strand, i: int) {
    0 <= i && i + |e| <= |s| && s[i..i + |e|] == e
  }

  predicate Contains(s: Strand, e: Strand) {
    exists i :: 0 <= i <= |s| && OccursAt(s, e, i)
  }

  /** The offset of the leftmost occurrence of `e` in `s` at or after offset `i`, if any. */
  function FindFrom(s: Strand, e: Strand, i: nat): (r: Option<nat>)
    requires |e| > 0
    ensures r.Some? ==> i <= r.value && OccursAt(s, e, r.value)
    ensures r.Some? ==> forall j :: i <= j < r.value ==> !OccursAt(s, e, j)
    ensures r.None? ==> forall j :: i <= j ==> !OccursAt(s, e, j)
    decreases |s| - i
  {
    if i + |e| > |s| then None
    else if s[i..i + |e|] == e then Some(i)
    else FindFrom(s, e, i + 1)
  }

  /** The leftmost occurrence at or after `i` is the only offset that `FindFrom` can report. */
  lemma FindFromIs(s: Strand, e: Strand, i: nat, k: nat)
    requires |e| > 0 && i <= k && OccursAt(s, e, k)
    requires forall j :: i <= j < k ==> !OccursAt(s, e, j)
    ensures FindFrom(s, e, i) == Some(k)
  {
  }

  /**
   * `str.split` with a non-empty separator: the pieces between the leftmost
   * non-overlapping occurrences of `e`, in order, empty pieces included.
   */
  function Split(s: Strand, e: Strand): (parts: seq<Strand>)
    requires |e| > 0
    ensures |parts| >= 1
  {
    SplitFrom(s, e, 0)
  }

  /** The pieces of `s[i..]`: the search resumes just past each occurrence it cuts at. */
  function SplitFrom(s: Strand, e: Strand, i: nat): (parts: seq<Strand>)
    requires |e| > 0 && i <= |s|
    ensures |parts| >= 1
    decreases |s| - i
  {
    match FindFrom(s, e, i)
    case None => [s[i..]]
    case Some(k) => [s[i..k]] + SplitFrom(s, e, k + |e|)
  }

  /** The pieces glued back together with the separator between them. */
  function Join(parts: seq<Strand>, e: Strand): Strand {
    if |parts| == 0 then []
    else if |parts| == 1 then parts[0]
    else parts[0] + e + Join(parts[1..], e)
  }

  /** Splitting and joining with the same separator gives back the strand. */
  lemma SplitJoin(s: Strand, e: Strand)
    requires |e| > 0
    ensures Join(Split(s, e), e) == s
  {
    SplitFromJoin(s, e, 0);
  }

  lemma {:induction false} SplitFromJoin(s: Strand, e: Strand, i: nat)
    requires |e| > 0 && i <= |s|
    ensures Join(SplitFrom(s, e, i), e) == s[i..]
    decreases |s| - i
  {
    match FindFrom(s, e, i)
    case None =>
    case Some(k) =>
      var rest := SplitFrom(s, e, k + |e|);
      calc {
        Join(SplitFrom(s, e, i), e);
        { SplitFromAt(s, e, i, k); }
        Join([s[i..k]] + rest, e);
        { JoinCons(s[i..k], rest, e); }
        s[i..k] + e + Join(rest, e);
        { SplitFromJoin(s, e, k + |e|); assert s[k..k + |e|] == e; }
        s[i..k] + s[k..k + |e|] + s[k + |e|..];
        { Recompose(s, i, k, k + |e|); }
        s[i..];
      }
  }

  lemma Recompose(s: Strand, i: nat, k: nat, j: nat)
    requires i <= k <= j <= |s|
    ensures s[i..] == s[i..k] + s[k..j] + s[j..]
  {
  }

  lemma JoinCons(p: Strand, rest: seq<Strand>, e: Strand)
    requires rest != []
    ensures Join([p] + rest, e) == p + e + Join(rest, e)
  {
    assert ([p] + rest)[1..] == rest;
  }

  /** No piece of a split contains the separator. */
  lemma SplitPiecesAreFree(s: Strand, e: Strand)
    requires |e| > 0
    ensures forall p :: p in Split(s, e) ==> !Contains(p, e)
  {
    SplitFromPiecesAreFree(s, e, 0);
  }

  lemma {:induction false} SplitFromPiecesAreFree(s: Strand, e: Strand, i: nat)
    requires |e| > 0 && i <= |s|
    ensures forall p :: p in SplitFrom(s, e, i) ==> !Contains(p, e)
    decreases |s| - i
  {
    match FindFrom(s, e, i)
    case None =>
      assert s[i..] == s[i..|s|];
      PieceIsFree(s, e, i, |s|);
    case Some(k) =>
      SplitFromPiecesAreFree(s, e, k + |e|);
      PieceIsFree(s, e, i, k);
  }

  /** A stretch of `s` in which no occurrence starts holds no occurrence. */
  lemma PieceIsFree(s: Strand, e: Strand, i: nat, k: nat)
    requires |e| > 0 && i <= k <= |s| && forall j :: i <= j < k ==> !OccursAt(s, e, j)
    ensures !Contains(s[i..k], e)
  {
    var piece := s[i..k];
    forall j | 0 <= j <= |piece| ensures !OccursAt(piece, e, j) {
      if j + |e| <= |piece| {
        SliceOfSlice(s, i, k, j, j + |e|);
        assert !OccursAt(s, e, i + j);
      }
    }
  }

  lemma SliceOfSlice(s: Strand, i: nat, k: nat, a: nat, b: nat)
    requires i <= k <= |s| && a <= b <= k - i
    ensures s[i..k][a..b] == s[i + a..i + b]
  {
    forall t | 0 <= t < b - a ensures s[i..k][a..b][t] == s[i + a..i + b][t] {
    }
  }

  /** The pieces that are not empty, in order. */
  function NonEmpty(parts: seq<Strand>): (r: seq<Strand>)
    ensures forall p :: p in r ==> p in parts && p != []
  {
    if parts == [] then []
    else if parts[0] == [] then NonEmpty(parts[1..])
    else [parts[0]] + NonEmpty(parts[1..])
  }

  lemma {:induction false} NonEmptyAppend(parts: seq<Strand>, p: Strand)
    ensures NonEmpty(parts + [p]) == NonEmpty(parts) + (if p == [] then [] else [p])
  {
    if parts != [] {
      assert (parts + [p])[1..] == parts[1..] + [p];
      NonEmptyAppend(parts[1..], p);
    } else {
      assert NonEmpty([p][1..]) == [];
    }
  }

  /** The segments `cleave` returns for a non-empty recognition site. */
  function Cleaved(s: Strand, e: Strand): seq<Strand>
    requires |e| > 0
  {
    NonEmpty(Split(s, e))
  }

  /** Every segment of a cleavage is non-empty and free of the recognition site. */
  lemma CleavedSegments(s: Strand, e: Strand)
    requires |e| > 0
    ensures forall seg :: seg in Cleaved(s, e) ==> seg != [] && !Contains(seg, e)
  {
    SplitPiecesAreFree(s, e);
  }

  /** A non-empty strand without the recognition site comes back whole. */
  lemma CleaveWithoutSite(s: Strand, e: Strand)
    requires |e| > 0 && s != [] && !Contains(s, e)
    ensures Cleaved(s, e) == [s]
  {
    assert forall j :: 0 <= j ==> !OccursAt(s, e, j);
    assert FindFrom(s, e, 0) == None;
    assert s[0..] == s;
    assert Split(s, e) == [s];
    assert NonEmpty([s][1..]) == [];
  }

  /** EcoRI (recognition site GAATTC) on the strand ATCGGAATTCGGAATTC. */
  lemma CleaveEcoRIExample()
    ensures Cleaved("ATCGGAATTCGGAATTC", "GAATTC") == ["ATCG", "G"]
  {
    EcoRISplit();
    NonEmptyEcoRIPieces("ATCG", "G");
  }

  lemma NonEmptyEcoRIPieces(a: Strand, b: Strand)
    requires a != [] && b != []
    ensures NonEmpty([a, b, []]) == [a, b]
  {
    assert [a, b, []][1..] == [b, []];
    assert [b, []][1..] == [[]];
    assert NonEmpty([[]]) == [];
  }

  /** Cutting at the leftmost occurrence: the piece before it, then the pieces after it. */
  lemma SplitFromAt(s: Strand, e: Strand, i: nat, k: nat)
    requires |e| > 0 && i <= |s| && FindFrom(s, e, i) == Some(k)
    ensures SplitFrom(s, e, i) == [s[i..k]] + SplitFrom(s, e, k + |e|)
  {
  }

  lemma EcoRISplit()
    ensures Split("ATCGGAATTCGGAATTC", "GAATTC") == ["ATCG", "G", []]
  {
    var s, e := "ATCGGAATTCGGAATTC", "GAATTC";
    EcoRIFind();
    SplitFromAt(s, e, 0, 4);
    SplitFromAt(s, e, 10, 11);
    assert FindFrom(s, e, 17) == None;
    EcoRIPieces();
  }

  lemma EcoRIPieces()
    ensures "ATCGGAATTCGGAATTC"[0..4] == "ATCG" && "ATCGGAATTCGGAATTC"[10..11] == "G"
    ensures "ATCGGAATTCGGAATTC"[17..] == []
  {
  }

  /** One mismatching position rules out an occurrence. */
  lemma Mismatch(s: Strand, e: Strand, j: nat, d: nat)
    requires d < |e| && j + d < |s| && s[j + d] != e[d]
    ensures !OccursAt(s, e, j)
  {
  }

  /** The first site in the strand is at offset 4. */
  lemma EcoRIFind()
    ensures FindFrom("ATCGGAATTCGGAATTC", "GAATTC", 0) == Some(4)
    ensures FindFrom("ATCGGAATTCGGAATTC", "GAATTC", 10) == Some(11)
  {
    var s, e := "ATCGGAATTCGGAATTC", "GAATTC";
    assert s[4..10] == e;
    Mismatch(s, e, 0, 0);
    Mismatch(s, e, 1, 0);
    Mismatch(s, e, 2, 0);
    Mismatch(s, e, 3, 1);
    FindFromIs(s, e, 0, 4);
    EcoRIFindSecond();
  }

  /** After the first site the search resumes at offset 10 and meets the second site at 11. */
  lemma EcoRIFindSecond()
    ensures FindFrom("ATCGGAATTCGGAATTC", "GAATTC", 10) == Some(11)
  {
    var s, e := "ATCGGAATTCGGAATTC", "GAATTC";
    assert s[11..17] == e;
    Mismatch(s, e, 10, 1);
    FindFromIs(s, e, 10, 11);
  }


  /**
   * `cleave`: the non-empty pieces of splitting the strand at the recognition site.
   * An empty recognition site makes `str.split` raise `ValueError`.
   */
  method Cleave(dna: DnaSequence, enzymeRecognitionSeq: Strand) returns (r: Result<seq<Strand>, DnaError>)
    ensures r.Failure? <==> enzymeRecognitionSeq == []
    ensures r.Failure? ==> r.error == EmptySeparator
    ensures r.Success? ==> r.value == Cleaved(dna.sequence, enzymeRecognitionSeq)
    ensures r.Success? ==>
              forall seg :: seg in r.value ==> seg != [] && !Contains(seg, enzymeRecognitionSeq)
  {
    if enzymeRecognitionSeq == [] {
      return Failure(EmptySeparator);
    }
    var segments: seq<Strand> := [];
    var parts := Split(dna.sequence, enzymeRecognitionSeq);
    if parts[0] != [] {
      segments := segments + [parts[0]];
    }
    assert segments == NonEmpty(parts[..1]) by {
      assert parts[..1] == [parts[0]];
      assert NonEmpty([parts[0]][1..]) == [];
    }
    var i := 1;
    while i < |parts|
      invariant 1 <= i <= |parts|
      invariant segments == NonEmpty(parts[..i])
    {
      var part := parts[i];
      NonEmptyAppend(parts[..i], part);
      assert parts[..i + 1] == parts[..i] + [part];
      if part != [] {
        segments := segments + [part];
      }
      i := i + 1;
    }
    assert parts[..i] == parts;
    CleavedSegments(dna.sequence, enzymeRecognitionSeq);
    return Success(segments);
  }
}
