/** ASCII case folding, the comparison the cookie code uses for attribute
    names, cookie names and domains. */
module Ascii {
  import opened Wrappers

  function ToLower(c: char): char {
    if 'A' <= c <= 'Z' then (c as int + 32) as char else c
  }

  /** Equal length and equal character by character after folding upper-case
      ASCII letters. */
  predicate EqualsIgnoreCase(a: string, b: string) {
    |a| == |b| && (|a| == 0 || (ToLower(a[0]) == ToLower(b[0]) && EqualsIgnoreCase(a[1..], b[1..])))
  }

  /** The recursive comparison agrees with the character-by-character one. */
  lemma {:induction false} EqualsIgnoreCaseIff(a: string, b: string)
    ensures EqualsIgnoreCase(a, b) <==> |a| == |b| && forall k :: 0 <= k < |a| ==> ToLower(a[k]) == ToLower(b[k])
  {
    if |a| == |b| && |a| > 0 {
      EqualsIgnoreCaseIff(a[1..], b[1..]);
      if EqualsIgnoreCase(a, b) {
        forall k | 0 <= k < |a| ensures ToLower(a[k]) == ToLower(b[k]) {
          if k > 0 {
            assert a[k] == a[1..][k - 1] && b[k] == b[1..][k - 1];
          }
        }
      }
    }
  }

  /** The text with every upper-case ASCII letter folded to lower case. */
  function Fold(s: string): (r: string)
    ensures |r| == |s| && forall k :: 0 <= k < |s| ==> r[k] == ToLower(s[k])
  {
    seq(|s|, k requires 0 <= k < |s| => ToLower(s[k]))
  }

  /** Two texts are equal ignoring case exactly when their foldings are equal. */
  lemma EqualsIgnoreCaseFold(a: string, b: string)
    ensures EqualsIgnoreCase(a, b) <==> Fold(a) == Fold(b)
  {
    EqualsIgnoreCaseIff(a, b);
    if |a| == |b| && Fold(a) == Fold(b) {
      forall k | 0 <= k < |a| ensures ToLower(a[k]) == ToLower(b[k]) {
        assert Fold(a)[k] == Fold(b)[k];
      }
    }
  }

  /** The comparison of two nullable character sequences: two nulls are equal,
      a null never equals a non-null. */
  predicate OptionEqualsIgnoreCase(a: Option<string>, b: Option<string>) {
    match (a, b)
    case (None, None) => true
    case (Some(x), Some(y)) => EqualsIgnoreCase(x, y)
    case _ => false
  }

  /** The nullable comparison through the foldings. */
  lemma OptionEqualsIgnoreCaseFold(a: Option<string>, b: Option<string>)
    ensures OptionEqualsIgnoreCase(a, b) <==> a.Some? == b.Some? && (a.Some? ==> Fold(a.value) == Fold(b.value))
  {
    if a.Some? && b.Some? {
      EqualsIgnoreCaseFold(a.value, b.value);
    }
  }

  /** Folding twice is folding once. */
  lemma FoldIdempotent(s: string)
    ensures Fold(Fold(s)) == Fold(s)
  {
    forall k | 0 <= k < |s| ensures Fold(Fold(s))[k] == Fold(s)[k] {
    }
  }
}
