/** Maximal runs of characters that satisfy a class predicate, read left to right.
    Both the whitespace tokeniser and the ACGT chopping rule are instances:
    the first keeps the maximal runs of non-whitespace, the second the maximal
    runs of A/C/G/T. */
module MaximalRuns {

  /** Every character of `s` is in the class. */
  ghost predicate AllIn(s: string, p: char -> bool) {
    forall k :: 0 <= k < |s| ==> p(s[k])
  }

  /** The characters of `s` that are in the class, in order. */
  function Filter(s: string, p: char -> bool): (r: string)
    ensures |r| <= |s|
    ensures forall k :: 0 <= k < |r| ==> p(r[k])
  {
    if s == [] then []
    else if p(s[0]) then [s[0]] + Filter(s[1..], p)
    else Filter(s[1..], p)
  }

  /** The concatenation of a list of strings. */
  function Concat(ts: seq<string>): string {
    if ts == [] then [] else ts[0] + Concat(ts[1..])
  }

  /** Length of the longest prefix of `s` inside the class. */
  function Span(s: string, p: char -> bool): (n: nat)
    ensures n <= |s|
    ensures forall k :: 0 <= k < n ==> p(s[k])
    ensures n == |s| || !p(s[n])
  {
    if s == [] || !p(s[0]) then 0 else 1 + Span(s[1..], p)
  }

  /** The maximal runs of class characters of `s`, left to right. */
  function Runs(s: string, p: char -> bool): (rs: seq<string>)
    ensures forall i :: 0 <= i < |rs| ==> |rs[i]| > 0 && AllIn(rs[i], p)
    decreases |s|
  {
    if s == [] then []
    else if !p(s[0]) then Runs(s[1..], p)
    else
      var n := Span(s, p);
      [s[..n]] + Runs(s[n..], p)
  }

  lemma FilterAppend(a: string, b: string, p: char -> bool)
    ensures Filter(a + b, p) == Filter(a, p) + Filter(b, p)
  {
    if a == [] {
      assert a + b == b;
    } else {
      assert (a + b)[0] == a[0];
      assert (a + b)[1..] == a[1..] + b;
      FilterAppend(a[1..], b, p);
      if p(a[0]) {
        assert Filter(a + b, p) == [a[0]] + (Filter(a[1..], p) + Filter(b, p));
      } else {
        assert Filter(a + b, p) == Filter(a[1..], p) + Filter(b, p);
      }
    }
  }

  lemma FilterAll(s: string, p: char -> bool)
    requires AllIn(s, p)
    ensures Filter(s, p) == s
  {
    if s != [] {
      FilterAll(s[1..], p);
      assert s == [s[0]] + s[1..];
    }
  }

  lemma ConcatAppend(a: seq<string>, b: seq<string>)
    ensures Concat(a + b) == Concat(a) + Concat(b)
  {
    if a == [] {
      assert a + b == b;
    } else {
      assert (a + b)[1..] == a[1..] + b;
      ConcatAppend(a[1..], b);
    }
  }

  /** Gluing the runs back together gives exactly the class characters of `s`:
      nothing is lost, nothing is added, nothing is reordered. */
  lemma {:induction false} RunsConcat(s: string, p: char -> bool)
    ensures Concat(Runs(s, p)) == Filter(s, p)
    decreases |s|
  {
    if s == [] {
    } else if !p(s[0]) {
      RunsConcat(s[1..], p);
    } else {
      var n := Span(s, p);
      assert s == s[..n] + s[n..];
      FilterAppend(s[..n], s[n..], p);
      FilterAll(s[..n], p);
      RunsConcat(s[n..], p);
      assert Runs(s, p) == [s[..n]] + Runs(s[n..], p);
      assert Concat([s[..n]] + Runs(s[n..], p)) == s[..n] + Concat(Runs(s[n..], p));
    }
  }

  /** A trailing character outside the class closes the last run and adds nothing. */
  lemma {:induction false} RunsDropTrailing(a: string, c: char, p: char -> bool)
    requires !p(c)
    ensures Runs(a + [c], p) == Runs(a, p)
    decreases |a|
  {
    var s := a + [c];
    if a == [] {
      assert s[1..] == [];
    } else if !p(a[0]) {
      assert s[1..] == a[1..] + [c];
      RunsDropTrailing(a[1..], c, p);
    } else {
      var n := Span(a, p);
      assert Span(s, p) == n by {
        assert forall k :: 0 <= k < n ==> s[k] == a[k];
        assert s[n] == if n < |a| then a[n] else c;
        SpanUnique(s, n, p);
      }
      assert s[..n] == a[..n];
      assert s[n..] == a[n..] + [c];
      RunsDropTrailing(a[n..], c, p);
    }
  }

  /** `Span` is the only length with its two defining properties. */
  lemma SpanUnique(s: string, n: nat, p: char -> bool)
    requires n <= |s|
    requires forall k :: 0 <= k < n ==> p(s[k])
    requires n == |s| || !p(s[n])
    ensures Span(s, p) == n
  {
  }

  /** Once `a` ends outside the class (or is empty), the runs of `a + t` are
      the runs of `a` followed by the runs of `t`. */
  lemma {:induction false} RunsAfterBreak(a: string, t: string, p: char -> bool)
    requires a == [] || !p(a[|a| - 1])
    ensures Runs(a + t, p) == Runs(a, p) + Runs(t, p)
    decreases |a|
  {
    var s := a + t;
    if a == [] {
      assert s == t;
    } else if !p(a[0]) {
      calc {
        Runs(s, p);
        { assert s[0] == a[0]; }
        Runs(s[1..], p);
        { assert s[1..] == a[1..] + t; }
        Runs(a[1..] + t, p);
        { RunsAfterBreak(a[1..], t, p); }
        Runs(a[1..], p) + Runs(t, p);
      }
    } else {
      var n := Span(a, p);
      calc {
        Runs(s, p);
        { assert s[0] == a[0]; SpanOfExtension(a, t, p); }
        [s[..n]] + Runs(s[n..], p);
        { assert s[..n] == a[..n] && s[n..] == a[n..] + t; }
        [a[..n]] + Runs(a[n..] + t, p);
        { RunsAfterBreak(a[n..], t, p); }
        [a[..n]] + (Runs(a[n..], p) + Runs(t, p));
      }
    }
  }

  /** A run that ends inside `a` is not lengthened by what follows `a`. */
  lemma {:induction false} SpanOfExtension(a: string, t: string, p: char -> bool)
    requires Span(a, p) < |a|
    ensures Span(a + t, p) == Span(a, p)
    decreases |a|
  {
    if p(a[0]) {
      assert (a + t)[1..] == a[1..] + t;
      SpanOfExtension(a[1..], t, p);
    }
  }

  /** A single character outside the class separates: the runs of `a + [c] + b`
      are those of `a` followed by those of `b`, and no run spans the separator. */
  lemma RunsSplitAt(a: string, c: char, b: string, p: char -> bool)
    requires !p(c)
    ensures Runs(a + [c] + b, p) == Runs(a, p) + Runs(b, p)
  {
    RunsAfterBreak(a + [c], b, p);
    RunsDropTrailing(a, c, p);
  }

  /** A non-empty string entirely inside the class is one run. */
  lemma RunsOfRun(s: string, p: char -> bool)
    requires |s| > 0 && AllIn(s, p)
    ensures Runs(s, p) == [s]
  {
    assert Span(s, p) == |s| by { SpanUnique(s, |s|, p); }
    assert s[..|s|] == s && s[|s|..] == [];
    assert Runs(s, p) == [s] + Runs([], p);
  }

  /** A string with no class character has no runs. */
  lemma {:induction false} RunsOfNone(s: string, p: char -> bool)
    requires forall k :: 0 <= k < |s| ==> !p(s[k])
    ensures Runs(s, p) == []
    decreases |s|
  {
    if s != [] {
      RunsOfNone(s[1..], p);
    }
  }
}
