/** Colexicographic order on strings (`colex_compare`): strings are compared
    from their last character backwards, and a proper suffix sorts before the
    longer string. It is lexicographic order on the reversals. */
module Colex {

  /** `s` read backwards. */
  function Reverse(s: string): (r: string)
    ensures |r| == |s|
    ensures forall k :: 0 <= k < |s| ==> r[k] == s[|s| - 1 - k]
  {
    if s == [] then [] else Reverse(s[1..]) + [s[0]]
  }

  /** Lexicographic "less than": the first differing character decides, and a
      proper prefix comes before the longer string. */
  predicate LexLess(a: string, b: string)
    decreases |a|
  {
    if a == [] then b != []
    else if b == [] then false
    else if a[0] != b[0] then a[0] < b[0]
    else LexLess(a[1..], b[1..])
  }

  /** `s` comes strictly before `t` in colexicographic order. */
  predicate ColexLess(s: string, t: string) {
    LexLess(Reverse(s), Reverse(t))
  }

  /** Whether `s` comes before `t` when both are read from their last character. */
  method ColexCompare(s: string, t: string) returns (less: bool)
    ensures less == ColexLess(s, t)
  {
    ghost var rs, rt := Reverse(s), Reverse(t);
    var i := 0;
    while true
      invariant 0 <= i <= |s| && i <= |t|
      invariant ColexLess(s, t) == LexLess(rs[i..], rt[i..])
      decreases |s| - i
    {
      if i == |s| || i == |t| {
        // All compared characters agree, so the shorter string (if any) is the smaller.
        return |s| < |t|;
      }
      assert rs[i..][0] == s[|s| - 1 - i] && rt[i..][0] == t[|t| - 1 - i];
      if s[|s| - 1 - i] < t[|t| - 1 - i] {
        return true;
      }
      if s[|s| - 1 - i] > t[|t| - 1 - i] {
        return false;
      }
      assert rs[i..][1..] == rs[i + 1..] && rt[i..][1..] == rt[i + 1..];
      i := i + 1;
    }
  }

  lemma {:induction false} LexIrreflexive(a: string)
    ensures !LexLess(a, a)
    decreases |a|
  {
    if a != [] {
      LexIrreflexive(a[1..]);
    }
  }

  lemma {:induction false} LexAsymmetric(a: string, b: string)
    requires LexLess(a, b)
    ensures !LexLess(b, a)
    decreases |a|
  {
    if a != [] && b != [] && a[0] == b[0] {
      LexAsymmetric(a[1..], b[1..]);
    }
  }

  lemma {:induction false} LexTransitive(a: string, b: string, c: string)
    requires LexLess(a, b) && LexLess(b, c)
    ensures LexLess(a, c)
    decreases |a|
  {
    if a != [] && a[0] == b[0] && b[0] == c[0] {
      LexTransitive(a[1..], b[1..], c[1..]);
    }
  }

  lemma {:induction false} LexTotal(a: string, b: string)
    requires a != b
    ensures LexLess(a, b) || LexLess(b, a)
    decreases |a|
  {
    if a != [] && b != [] && a[0] == b[0] {
      assert a == [a[0]] + a[1..] && b == [b[0]] + b[1..];
      LexTotal(a[1..], b[1..]);
    }
  }

  lemma {:induction false} LexProperPrefix(a: string, b: string)
    requires |a| < |b| && b[..|a|] == a
    ensures LexLess(a, b)
    decreases |a|
  {
    if a != [] {
      assert b[1..][..|a| - 1] == a[1..];
      LexProperPrefix(a[1..], b[1..]);
    }
  }

  lemma ReverseInjective(s: string, t: string)
    requires Reverse(s) == Reverse(t)
    ensures s == t
  {
    assert forall k :: 0 <= k < |s| ==> s[k] == Reverse(s)[|s| - 1 - k];
  }

  /** No string is colexicographically smaller than itself. */
  lemma ColexIrreflexive(s: string)
    ensures !ColexLess(s, s)
  {
    LexIrreflexive(Reverse(s));
  }

  /** Of two strings, at most one is smaller than the other. */
  lemma ColexAsymmetric(s: string, t: string)
    requires ColexLess(s, t)
    ensures !ColexLess(t, s)
  {
    LexAsymmetric(Reverse(s), Reverse(t));
  }

  lemma ColexTransitive(s: string, t: string, u: string)
    requires ColexLess(s, t) && ColexLess(t, u)
    ensures ColexLess(s, u)
  {
    LexTransitive(Reverse(s), Reverse(t), Reverse(u));
  }

  /** Two different strings are always ordered one way or the other, so the
      comparison is a strict total order (suitable for sorting). */
  lemma ColexTotal(s: string, t: string)
    requires s != t
    ensures ColexLess(s, t) || ColexLess(t, s)
  {
    if Reverse(s) == Reverse(t) {
      ReverseInjective(s, t);
    }
    LexTotal(Reverse(s), Reverse(t));
  }

  /** A proper suffix comes first. */
  lemma ProperSuffixFirst(s: string, t: string)
    requires |s| < |t| && t[|t| - |s|..] == s
    ensures ColexLess(s, t) && !ColexLess(t, s)
  {
    var rs, rt := Reverse(s), Reverse(t);
    assert forall k :: 0 <= k < |s| ==> rt[k] == t[|t| - |s|..][|s| - 1 - k];
    assert rt[..|s|] == rs;
    LexProperPrefix(rs, rt);
    LexAsymmetric(rs, rt);
  }

  /** The order read from the end: the last characters decide, and only when
      they are equal does the comparison move on to the rest. */
  lemma ColexByLastChar(s: string, c: char, t: string, e: char)
    ensures ColexLess(s + [c], t + [e]) == (c < e || (c == e && ColexLess(s, t)))
  {
    var a, b := Reverse(s + [c]), Reverse(t + [e]);
    assert a[1..] == Reverse(s) && b[1..] == Reverse(t);
  }
}
