/** Bytes, padding arithmetic and the in-memory byte swap shared by every CDR coder. */
module Bytes {

  type byte = b: int | 0 <= b < 256

  /** `p` modulo `a`, by repeated subtraction. */
  function Residue(p: nat, a: nat): (r: nat)
    requires a > 0
    ensures r < a
  {
    if p < a then p else Residue(p - a, a)
  }

  /** The sizes of CDR primitives, which are also the alignments in use. */
  type Alignment = a: nat | a == 1 || a == 2 || a == 4 || a == 8 witness 1

  /** The first position at or after `p` that is a multiple of `a`. */
  function AlignUp(p: nat, a: nat): (r: nat)
    requires a > 0
    ensures p <= r < p + a
  {
    if Residue(p, a) == 0 then p else p + a - Residue(p, a)
  }

  lemma {:induction false} ResidueIsModulo(p: nat, a: Alignment)
    ensures Residue(p, a) == p % a
  {
    if p >= a {
      ResidueIsModulo(p - a, a);
      MultipleKeepsModulo(p - a, a, a);
    } else if a == 8 {
    } else if a == 4 {
    } else if a == 2 {
    } else {
      assert a == 1;
    }
  }

  /** The padding as the streamers compute it. */
  lemma PaddingFormula(p: nat, a: Alignment)
    ensures AlignUp(p, a) == p + (a - p % a) % a
  {
    ResidueIsModulo(p, a);
    if a == 8 {
    } else if a == 4 {
    } else if a == 2 {
    } else {
      assert a == 1;
    }
  }

  lemma {:induction false} ResidueOfSum(p: nat, d: nat, a: nat)
    requires a > 0
    ensures Residue(p + d, a) == Residue(Residue(p, a) + d, a)
  {
    if p >= a { ResidueOfSum(p - a, d, a); }
  }

  lemma ShiftKeepsResidue(p: nat, q: nat, d: nat, a: nat)
    requires a > 0 && Residue(p, a) == Residue(q, a)
    ensures Residue(p + d, a) == Residue(q + d, a)
  {
    ResidueOfSum(p, d, a);
    ResidueOfSum(q, d, a);
  }

  lemma {:induction false} ResidueOfResidue(p: nat, a: Alignment, cap: Alignment)
    requires a <= cap
    ensures Residue(Residue(p, cap), a) == Residue(p, a)
  {
    if p >= cap {
      ResidueOfResidue(p - cap, a, cap);
      ResidueIsModulo(p, a);
      ResidueIsModulo(p - cap, a);
      MultipleKeepsModulo(p - cap, a, cap);
    }
  }

  lemma MultipleKeepsModulo(p: nat, a: Alignment, cap: Alignment)
    requires a <= cap
    ensures (p + cap) % a == p % a
  {
    if a == 8 {
    } else if a == 4 {
    } else if a == 2 {
    } else {
      assert a == 1;
    }
  }

  lemma AlignUpIsAligned(p: nat, a: nat)
    requires a > 0
    ensures Residue(AlignUp(p, a), a) == 0
    ensures Residue(p, a) == 0 ==> AlignUp(p, a) == p
  {
    ResidueOfSum(p, AlignUp(p, a) - p, a);
  }

  /** Alignment never skips a usable position. */
  lemma AlignUpIsLeast(p: nat, a: nat, q: nat)
    requires a > 0 && p <= q && Residue(q, a) == 0
    ensures AlignUp(p, a) <= q
  {
    ResidueOfSum(p, q - p, a);
  }

  /** A multiple of a larger alignment is a multiple of a smaller one. */
  lemma AlignmentDivides(p: nat, a: Alignment, b: Alignment)
    requires a <= b
    requires Residue(p, b) == 0
    ensures Residue(p, a) == 0
  {
    ResidueOfResidue(p, a, b);
  }

  lemma WordsKeepAlignment(p: nat, a: Alignment, size: Alignment)
    requires a <= size && Residue(p, a) == 0
    ensures Residue(p + size, a) == 0
  {
    ResidueOfSum(p, size, a);
    AlignmentDivides(size, a, size);
  }

  /** Positions that agree modulo `cap` need the same padding for every alignment up to `cap`. */
  lemma PaddingIsPeriodic(p: nat, q: nat, a: Alignment, cap: Alignment)
    requires a <= cap
    requires Residue(p, cap) == Residue(q, cap)
    ensures AlignUp(p, a) - p == AlignUp(q, a) - q
  {
    ResidueOfResidue(p, a, cap);
    ResidueOfResidue(q, a, cap);
  }

  lemma AlignUpMonotone(p: nat, q: nat, a: Alignment, b: Alignment)
    requires a <= b
    requires p <= q
    ensures AlignUp(p, a) <= AlignUp(q, b)
  {
    AlignUpIsAligned(q, b);
    AlignmentDivides(AlignUp(q, b), a, b);
    AlignUpIsLeast(p, a, AlignUp(q, b));
  }

  function Reverse(s: seq<byte>): (r: seq<byte>)
    ensures |r| == |s|
    ensures forall i :: 0 <= i < |s| ==> r[i] == s[|s| - 1 - i]
  {
    seq(|s|, i requires 0 <= i < |s| => s[|s| - 1 - i])
  }

  lemma ReverseTwice(s: seq<byte>)
    ensures Reverse(Reverse(s)) == s
  {}
}
