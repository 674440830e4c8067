/** Case-insensitive comparison of player names.
    Names are compared by folding the ASCII letters A-Z to a-z, character by
    character; the stored casing of a name is never changed. */
module Names {

  /** Folds an upper-case ASCII letter to its lower-case form; every other
      character is kept as it is. */
  function Fold(c: char): char {
    if 'A' <= c <= 'Z' then (c as int + 32) as char else c
  }

  /** The string with every character folded. */
  function FoldAll(s: string): string {
    seq(|s|, i requires 0 <= i < |s| => Fold(s[i]))
  }

  /** Two names are equal ignoring case when they have the same length and
      agree position by position once folded. */
  predicate EqIgnoreCase(a: string, b: string) {
    |a| == |b| && forall i :: 0 <= i < |a| ==> Fold(a[i]) == Fold(b[i])
  }

  /** Folding never yields an upper-case letter, and folding twice is folding once. */
  lemma FoldIsLowerCase(c: char)
    ensures !('A' <= Fold(c) <= 'Z')
    ensures Fold(Fold(c)) == Fold(c)
  {
  }

  /** Equality ignoring case is exactly equality of the folded strings. */
  lemma EqIgnoreCaseIffSameFold(a: string, b: string)
    ensures EqIgnoreCase(a, b) <==> FoldAll(a) == FoldAll(b)
  {
    if FoldAll(a) == FoldAll(b) {
      assert |a| == |FoldAll(a)| == |FoldAll(b)| == |b|;
      forall i | 0 <= i < |a| ensures Fold(a[i]) == Fold(b[i]) {
        assert FoldAll(a)[i] == FoldAll(b)[i];
      }
    }
  }

  /** Equality ignoring case is an equivalence relation. */
  lemma EqIgnoreCaseIsEquivalence(a: string, b: string, c: string)
    ensures EqIgnoreCase(a, a)
    ensures EqIgnoreCase(a, b) ==> EqIgnoreCase(b, a)
    ensures EqIgnoreCase(a, b) && EqIgnoreCase(b, c) ==> EqIgnoreCase(a, c)
  {
  }

  /** The folded form of a name is a canonical representative of its class:
      it is equal to the name ignoring case, and it is its own folded form. */
  lemma FoldAllIsCanonical(s: string)
    ensures EqIgnoreCase(s, FoldAll(s))
    ensures FoldAll(FoldAll(s)) == FoldAll(s)
  {
    forall i | 0 <= i < |s| ensures Fold(FoldAll(s)[i]) == Fold(s[i]) {
      FoldIsLowerCase(s[i]);
    }
  }
}
