/** The DNA alphabet and the validation of a user-entered DNA sequence. */
module Dna {
  import opened Outcomes

  /** One of the four DNA bases, upper case only. */
  predicate IsBase(c: char) {
    c == 'G' || c == 'C' || c == 'T' || c == 'A'
  }

  /** Every character of `s` is a DNA base. */
  predicate AllBases(s: string) {
    forall i :: 0 <= i < |s| ==> IsBase(s[i])
  }

  /** Validation of the DNA sequence typed by the user. The characters are
      scanned first, so a string that is wrong in both respects is reported
      as a bad character, never as a bad length. The empty string passes. */
  method CheckDna(dna: string) returns (v: Verdict)
    ensures v == Pass <==> AllBases(dna) && |dna| % 3 == 0
    ensures v == Fail(BadDna) <==> !AllBases(dna)
    ensures v == Fail(NotDivBy3) <==> AllBases(dna) && |dna| % 3 != 0
  {
    var i := 0;
    while i < |dna|
      invariant 0 <= i <= |dna|
      invariant forall j :: 0 <= j < i ==> IsBase(dna[j])
    {
      if !IsBase(dna[i]) {
        return Fail(BadDna);
      }
      i := i + 1;
    }
    if |dna| % 3 != 0 {
      return Fail(NotDivBy3);
    }
    return Pass;
  }
}
