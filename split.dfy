/** Tokenising strings: by a delimiter character, keeping empty tokens
    (`split(text, delimiter)` and its `const char*` forwarder), and by
    whitespace, dropping whitespace runs (`split(text)`). */
module Split {
  import opened Chars
  import opened MaximalRuns

  /** The tokens glued back together with the delimiter between neighbours. */
  function Join(tokens: seq<string>, d: char): string {
    if tokens == [] then []
    else if |tokens| == 1 then tokens[0]
    else Join(tokens[..|tokens| - 1], d) + [d] + tokens[|tokens| - 1]
  }

  /** The number of occurrences of `d` in `s`. */
  function Occurrences(s: string, d: char): nat {
    multiset(s)[d]
  }

  /** Splits `text` at every occurrence of `d`; two adjacent delimiters, or a
      delimiter at either end, give an empty token. */
  method SplitAt(text: string, d: char) returns (tokens: seq<string>)
    requires |text| != 0
    ensures |tokens| == Occurrences(text, d) + 1
    ensures forall k :: 0 <= k < |tokens| ==> d !in tokens[k]
    ensures Join(tokens, d) == text
  {
    var ix := DelimiterIndices(text, d);
    PositionsCount(text, d);

    tokens := [];
    var i := 0;
    while i < |ix| - 1
      invariant 0 <= i <= |ix| - 1
      invariant |tokens| == i
      invariant forall k :: 0 <= k < i ==> d !in tokens[k]
      invariant i >= 1 ==> 0 <= ix[i] <= |text| && Join(tokens, d) == text[..ix[i]]
    {
      PositionsGap(text, d, i);
      NextToken(text, d, ix[i], ix[i + 1], tokens);
      var len := ix[i + 1] - ix[i] + 1 - 2;
      var token := text[ix[i] + 1..ix[i] + 1 + len];
      tokens := tokens + [token];
      i := i + 1;
    }
    assert text[..ix[|ix| - 1]] == text;
  }

  /** The first pass: the indices of the delimiters in increasing order, framed
      by -1 and `|text|`. */
  method DelimiterIndices(text: string, d: char) returns (ix: seq<int>)
    ensures ix == [-1] + Positions(text, d) + [|text|]
  {
    ix := [-1];
    var i := 0;
    while i < |text|
      invariant 0 <= i <= |text|
      invariant ix == [-1] + Positions(text[..i], d)
    {
      PositionsStep(text, d, i);
      if text[i] == d {
        ix := ix + [i];
      }
      i := i + 1;
    }
    assert text[..i] == text;
    ix := ix + [|text|];
  }

  /** Scanning one more character appends its index when it is the delimiter. */
  lemma PositionsStep(text: string, d: char, i: nat)
    requires i < |text|
    ensures Positions(text[..i + 1], d)
      == Positions(text[..i], d) + (if text[i] == d then [i] else [])
  {
    assert text[..i + 1][..i] == text[..i];
  }

  /** The text between delimiter index `a` (or the start, for -1) and `b`
      extends the join of the tokens before it up to `b`. */
  lemma NextToken(text: string, d: char, a: int, b: int, tokens: seq<string>)
    requires -1 <= a < b <= |text|
    requires (tokens == [] && a == -1) || (tokens != [] && 0 <= a && text[a] == d && Join(tokens, d) == text[..a])
    ensures Join(tokens + [text[a + 1..b]], d) == text[..b]
  {
    var token := text[a + 1..b];
    JoinSnoc(tokens, token, d);
    if tokens == [] {
      assert text[..b] == token;
    } else {
      assert text[..b] == text[..a] + [d] + token;
    }
  }

  /** Appending a token adds the delimiter and the token to the join. */
  lemma JoinSnoc(tokens: seq<string>, token: string, d: char)
    ensures Join(tokens + [token], d) == if tokens == [] then token else Join(tokens, d) + [d] + token
  {
    var ts := tokens + [token];
    assert ts[..|ts| - 1] == tokens;
  }

  /** The positions of `d` in `s`, in increasing order. */
  function Positions(s: string, d: char): seq<int>
    decreases |s|
  {
    if s == [] then []
    else Positions(s[..|s| - 1], d) + (if s[|s| - 1] == d then [|s| - 1] else [])
  }

  lemma {:induction false} PositionsCount(s: string, d: char)
    ensures |Positions(s, d)| == Occurrences(s, d)
    decreases |s|
  {
    if s != [] {
      var a := s[..|s| - 1];
      PositionsCount(a, d);
      assert s == a + [s[|s| - 1]];
    }
  }

  /** Framed by -1 and |s|, neighbouring positions enclose a delimiter-free
      stretch of `s`, and every position is a delimiter. */
  lemma {:induction false} PositionsGap(s: string, d: char, i: nat)
    requires i <= |Positions(s, d)|
    ensures var f := [-1] + Positions(s, d) + [|s|];
      && -1 <= f[i] < f[i + 1] <= |s|
      && (i >= 1 ==> 0 <= f[i] && s[f[i]] == d)
      && d !in s[f[i] + 1..f[i + 1]]
    decreases |s|
  {
    if s != [] {
      var a, c := s[..|s| - 1], s[|s| - 1];
      var p := Positions(a, d);
      var fa := [-1] + p + [|a|];
      var f := [-1] + Positions(s, d) + [|s|];
      if i <= |p| {
        PositionsGap(a, d, i);
        assert f[i] == fa[i];
        if c == d || i < |p| {
          assert f[i + 1] == fa[i + 1];
          assert s[f[i] + 1..f[i + 1]] == a[f[i] + 1..fa[i + 1]];
        } else {
          assert s[f[i] + 1..f[i + 1]] == a[f[i] + 1..fa[i + 1]] + [c];
        }
      } else {
        assert f[i] == |a|;
      }
    }
  }

  /** `split(const char*, char)`: the text is the characters before the first NUL. */
  method SplitCString(buffer: seq<char>, d: char) returns (tokens: seq<string>)
    requires |CString(buffer)| != 0
    ensures |tokens| == Occurrences(CString(buffer), d) + 1
    ensures forall k :: 0 <= k < |tokens| ==> d !in tokens[k]
    ensures Join(tokens, d) == CString(buffer)
  {
    tokens := SplitAt(CString(buffer), d);
  }

  /** The string a NUL-terminated buffer holds: everything before the first NUL. */
  function CString(buffer: seq<char>): (s: string)
    ensures |s| <= |buffer| && s == buffer[..|s|] && '\0' !in s
    ensures |s| == |buffer| || buffer[|s|] == '\0'
  {
    if buffer == [] || buffer[0] == '\0' then [] else [buffer[0]] + CString(buffer[1..])
  }

  /** The delimiter split is the only way to write `text` as delimiter-free
      tokens joined by the delimiter: two such token lists with the same join
      are equal. Together with the postcondition of `SplitAt`, splitting a
      join gives the tokens back. */
  lemma {:induction false} JoinInjective(ts: seq<string>, us: seq<string>, d: char)
    requires |ts| >= 1 && |us| >= 1
    requires forall k :: 0 <= k < |ts| ==> d !in ts[k]
    requires forall k :: 0 <= k < |us| ==> d !in us[k]
    requires Join(ts, d) == Join(us, d)
    ensures ts == us
    decreases |ts|
  {
    JoinSameCount(ts, us, d);
    var n := |ts| - 1;
    if n > 0 {
      var tp, up := ts[..n], us[..n];
      assert Join(ts, d) == Join(tp, d) + [d] + ts[n];
      assert Join(us, d) == Join(up, d) + [d] + us[n];
      LastTokenUnique(Join(tp, d), ts[n], Join(up, d), us[n], d);
      JoinInjective(tp, up, d);
      assert ts == tp + [ts[n]] && us == up + [us[n]];
    }
  }

  /** Two delimiter-free token lists with the same join have the same length. */
  lemma JoinSameCount(ts: seq<string>, us: seq<string>, d: char)
    requires |ts| >= 1 && |us| >= 1
    requires forall k :: 0 <= k < |ts| ==> d !in ts[k]
    requires forall k :: 0 <= k < |us| ==> d !in us[k]
    requires Join(ts, d) == Join(us, d)
    ensures |ts| == |us|
  {
    JoinOccurrences(ts, d);
    JoinOccurrences(us, d);
  }

  /** Joining `n` delimiter-free tokens puts exactly `n - 1` delimiters in the text. */
  lemma {:induction false} JoinOccurrences(ts: seq<string>, d: char)
    requires |ts| >= 1
    requires forall k :: 0 <= k < |ts| ==> d !in ts[k]
    ensures Occurrences(Join(ts, d), d) == |ts| - 1
  {
    if |ts| == 1 {
      assert multiset(ts[0])[d] == 0;
    } else {
      var init := ts[..|ts| - 1];
      JoinOccurrences(init, d);
      assert multiset(ts[|ts| - 1])[d] == 0;
      assert multiset(Join(ts, d)) == multiset(Join(init, d)) + multiset{d} + multiset(ts[|ts| - 1]);
    }
  }

  /** The text after the last delimiter is determined by the text. */
  lemma LastTokenUnique(p1: string, l1: string, p2: string, l2: string, d: char)
    requires p1 + [d] + l1 == p2 + [d] + l2
    requires d !in l1 && d !in l2
    ensures p1 == p2 && l1 == l2
  {
    var j := p1 + [d] + l1;
    assert forall k :: 0 <= k < |l1| ==> j[|p1| + 1 + k] == l1[k];
    assert forall k :: 0 <= k < |l2| ==> j[|p2| + 1 + k] == l2[k];
    assert j[|p1|] == d && j[|p2|] == d;
    assert |l1| == |l2|;
    assert p1 == j[..|p1|] && p2 == j[..|p2|];
    assert l1 == j[|p1| + 1..] && l2 == j[|p2| + 1..];
  }

  /** `split(text)`: the maximal runs of non-whitespace characters, in order. */
  function SplitWhitespace(text: string): (tokens: seq<string>)
    ensures forall k :: 0 <= k < |tokens| ==> |tokens[k]| > 0 && AllIn(tokens[k], IsNonSpace)
    ensures Concat(tokens) == Filter(text, IsNonSpace)
  {
    RunsConcat(text, IsNonSpace);
    Runs(text, IsNonSpace)
  }

  /** A whitespace character always separates tokens: the tokens of
      `a + [w] + b` are those of `a` followed by those of `b`. */
  lemma SplitWhitespaceAtSpace(a: string, w: char, b: string)
    requires IsSpace(w)
    ensures SplitWhitespace(a + [w] + b) == SplitWhitespace(a) + SplitWhitespace(b)
  {
    RunsSplitAt(a, w, b, IsNonSpace);
  }

  /** A non-empty word without whitespace is a single token. */
  lemma SplitWhitespaceWord(s: string)
    requires |s| > 0 && forall k :: 0 <= k < |s| ==> !IsSpace(s[k])
    ensures SplitWhitespace(s) == [s]
  {
    RunsOfRun(s, IsNonSpace);
  }

  /** Text made only of whitespace (the empty text included) has no tokens. */
  lemma SplitWhitespaceBlank(s: string)
    requires forall k :: 0 <= k < |s| ==> IsSpace(s[k])
    ensures SplitWhitespace(s) == []
  {
    RunsOfNone(s, IsNonSpace);
  }

  /** Round trip: words joined by single spaces split back into the same words. */
  lemma {:induction false} SplitWhitespaceOfJoin(ws: seq<string>)
    requires forall k :: 0 <= k < |ws| ==> |ws[k]| > 0 && forall j :: 0 <= j < |ws[k]| ==> !IsSpace(ws[k][j])
    ensures SplitWhitespace(Join(ws, ' ')) == ws
    decreases |ws|
  {
    if |ws| == 0 {
      SplitWhitespaceBlank([]);
    } else if |ws| == 1 {
      SplitWhitespaceWord(ws[0]);
    } else {
      var init := ws[..|ws| - 1];
      SplitWhitespaceOfJoin(init);
      SplitWhitespaceAtSpace(Join(init, ' '), ' ', ws[|ws| - 1]);
      SplitWhitespaceWord(ws[|ws| - 1]);
      assert ws == init + [ws[|ws| - 1]];
    }
  }
}
