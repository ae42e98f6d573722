/**
 * A test tube: a labelled set of molecules. Molecules are strands compared by
 * value; the Python tube holds `DNASequence` objects, which it tells apart by
 * identity, so the two agree whenever no two molecules carry the same strand.
 */
module Tube {
  import opened Dna

  /** `target` occurs in `m` at one of the offsets 0, 3, 6, ... that `extract` scans. */
  predicate AlignedOccurrence(m: Strand, target: Strand) {
    exists i :: 0 <= i <= |m| && i % 3 == 0 && OccursAt(m, target, i)
  }

  /** A target longer than the molecule is never found; the empty target is found in every molecule. */
  lemma AlignedOccurrenceBounds(m: Strand, target: Strand)
    ensures |target| > |m| ==> !AlignedOccurrence(m, target)
    ensures target == [] ==> AlignedOccurrence(m, target)
  {
    if target == [] {
      assert OccursAt(m, target, 0);
    }
  }

  class MolecularTube {
    var name: string
    var molecules: set<Strand>

    constructor (name: string)
      ensures this.name == name && molecules == {}
    {
      this.name := name;
      molecules := {};
    }

    /** Inserts a molecule; a molecule already present is not added again. */
    method Add(molecule: Strand)
      modifies this`molecules
      ensures molecules == old(molecules) + {molecule}
      ensures name == old(name)
    {
      molecules := molecules + {molecule};
    }

    method IsEmpty() returns (b: bool)
      ensures b <==> |molecules| == 0
      ensures b <==> molecules == {}
    {
      b := |molecules| == 0;
    }

    /** A new tube with the molecules holding `target` at an offset that is a multiple of 3. */
    method Extract(target: Strand) returns (result: MolecularTube)
      ensures fresh(result)
      ensures result.name == "extract_" + target
      ensures result.molecules == set m | m in molecules && AlignedOccurrence(m, target)
      ensures result.molecules <= molecules
    {
      result := new MolecularTube("extract_" + target);
      var remaining := molecules;
      while remaining != {}
        invariant remaining <= molecules
        invariant result.name == "extract_" + target
        invariant result.molecules ==
                    set m | m in molecules - remaining && AlignedOccurrence(m, target)
        decreases remaining
      {
        var molecule :| molecule in remaining;
        ghost var before := result.molecules;
        var i := 0;
        while i <= |molecule| - |target|
          invariant 0 <= i && i % 3 == 0
          invariant result.molecules == before
          invariant forall j :: 0 <= j < i && j % 3 == 0 ==> !OccursAt(molecule, target, j)
          decreases |molecule| - i
        {
          if molecule[i..i + |target|] == target {
            assert OccursAt(molecule, target, i);
            result.Add(molecule);
            break;
          }
          i := i + 3;
        }
        assert result.molecules ==
                 before + (if AlignedOccurrence(molecule, target) then {molecule} else {});
        remaining := remaining - {molecule};
      }
    }

    /** A new tube with the molecules present in both tubes. */
    method Intersect(other: MolecularTube) returns (result: MolecularTube)
      ensures fresh(result)
      ensures result.name == "intersect_" + name + "_" + other.name
      ensures result.molecules == molecules * other.molecules
    {
      result := new MolecularTube("intersect_" + name + "_" + other.name);
      result.molecules := molecules * other.molecules;
    }
  }

  /** Adding a molecule twice leaves the same set as adding it once. */
  lemma AddIdempotent(molecules: set<Strand>, m: Strand)
    ensures molecules + {m} + {m} == molecules + {m}
    ensures |molecules + {m} + {m}| == |molecules + {m}|
  {
  }

  /** What intersection promises of the molecule sets: idempotent, annihilated by the empty tube, commutative. */
  lemma IntersectLaws(a: set<Strand>, b: set<Strand>)
    ensures a * a == a
    ensures a * {} == {}
    ensures a * b == b * a
    ensures a * b <= a && a * b <= b
  {
  }
}
