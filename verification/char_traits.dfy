/** The character comparison strategy (case_insensitive_node_traits) and the
    key utilities built on it: folded keys, case-insensitive prefixes and the
    common-prefix length that append_child splits on. */
module CharTraits {

  /** ctype<char>::toupper in the classic "C" locale: ASCII a-z map to A-Z and
      every other character is left alone. Nothing proved about the tree
      depends on this body: every lemma holds for any fold. */
  function Fold(c: char): char {
    if 'a' <= c <= 'z' then (c as int - 32) as char else c
  }

  /** char_equals */
  predicate CharEquals(a: char, b: char) {
    Fold(a) == Fold(b)
  }

  /** char_compare */
  predicate CharLess(a: char, b: char) {
    Fold(a) < Fold(b)
  }

  /** char_equals is an equivalence, char_compare a strict order, and two
      characters are incomparable under char_compare exactly when char_equals
      holds of them, so the children set's ordering and its uniqueness agree. */
  lemma CharOrder(a: char, b: char, c: char)
    ensures CharEquals(a, a)
    ensures CharEquals(a, b) ==> CharEquals(b, a)
    ensures CharEquals(a, b) && CharEquals(b, c) ==> CharEquals(a, c)
    ensures !CharLess(a, a)
    ensures CharLess(a, b) && CharLess(b, c) ==> CharLess(a, c)
    ensures CharLess(a, b) ==> !CharLess(b, a)
    ensures !CharLess(a, b) && !CharLess(b, a) <==> CharEquals(a, b)
  {
  }

  /** A key with every character folded: two keys are equal under char_equals
      exactly when their folds are equal. */
  function FoldStr(s: string): string {
    seq(|s|, i requires 0 <= i < |s| => Fold(s[i]))
  }

  /** `a` equals `b` case-insensitively. */
  predicate KeyEquals(a: string, b: string) {
    FoldStr(a) == FoldStr(b)
  }

  /** `a` is a case-insensitive prefix of `b`. */
  predicate IsPrefix(a: string, b: string) {
    |a| <= |b| && FoldStr(a) == FoldStr(b[..|a|])
  }

  lemma {:induction false} FoldStrAppend(a: string, b: string)
    ensures FoldStr(a + b) == FoldStr(a) + FoldStr(b)
  {
    var l, r := FoldStr(a + b), FoldStr(a) + FoldStr(b);
    assert |l| == |r|;
    forall i | 0 <= i < |l| ensures l[i] == r[i] {
      if i < |a| {
        assert (a + b)[i] == a[i];
      } else {
        assert (a + b)[i] == b[i - |a|];
      }
    }
  }

  /** The length of the longest common prefix of `a` and `b` under char_equals:
      the two agree on the first L characters and, unless one of them ends
      there, differ on the next. */
  function CommonPrefixLen(a: string, b: string): (L: nat)
    ensures L <= |a| && L <= |b|
    ensures forall i :: 0 <= i < L ==> CharEquals(a[i], b[i])
    ensures L < |a| && L < |b| ==> !CharEquals(a[L], b[L])
  {
    if a == [] || b == [] || !CharEquals(a[0], b[0]) then 0
    else 1 + CommonPrefixLen(a[1..], b[1..])
  }
}
