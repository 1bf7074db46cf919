/** Strict parsing of one line of a colour file (`string_to_integer_safe`).
    A line is accepted exactly when it is optional whitespace, one non-empty
    block of decimal digits, and optional whitespace; its value is the value of
    that digit block. There is no sign, so no colour is negative. */
module IntegerParsing {
  import opened Chars

  /** Outcome of parsing one line: the number, or the error raised for the line. */
  datatype ParseResult = Number(value: nat) | CouldNotParse(line: string)

  /** The position the source uses as "no digit seen yet" (1e18). */
  const NO_DIGIT_YET: int := 1_000_000_000_000_000_000

  predicate AllDigits(s: string) {
    forall k :: 0 <= k < |s| ==> IsDigit(s[k])
  }

  predicate AllSpace(s: string) {
    forall k :: 0 <= k < |s| ==> IsSpace(s[k])
  }

  /** `s` without its leading whitespace. */
  function TrimLeft(s: string): string {
    if s != [] && IsSpace(s[0]) then TrimLeft(s[1..]) else s
  }

  /** `s` without its trailing whitespace. */
  function TrimRight(s: string): string {
    if s != [] && IsSpace(s[|s| - 1]) then TrimRight(s[..|s| - 1]) else s
  }

  function Trim(s: string): string {
    TrimRight(TrimLeft(s))
  }

  /** The accepted shape of a colour line: once the surrounding whitespace is
      gone, what is left is a non-empty block of digits. */
  predicate IsPaddedNumber(s: string) {
    var t := Trim(s);
    |t| > 0 && AllDigits(t)
  }

  /** The decimal value of a block of digits (most significant first). */
  function DecimalValue(s: string): nat
    requires AllDigits(s)
  {
    if s == [] then 0 else 10 * DecimalValue(s[..|s| - 1]) + DigitValue(s[|s| - 1])
  }

  /** What `string_to_integer_safe` answers for a line. */
  function ParseColorLine(s: string): ParseResult {
    if IsPaddedNumber(s) then Number(DecimalValue(Trim(s))) else CouldNotParse(s)
  }

  /** The longest prefix of `s` made of digits. */
  function LeadingDigits(s: string): (d: string)
    ensures |d| <= |s| && d == s[..|d|] && AllDigits(d)
    ensures |d| == |s| || !IsDigit(s[|d|])
  {
    if s != [] && IsDigit(s[0]) then [s[0]] + LeadingDigits(s[1..]) else []
  }

  /** `stoll` as the checked line reaches it: skip leading whitespace, then read
      the digits that follow. Signs and overflow are outside this model. */
  function Stoll(s: string): nat {
    DecimalValue(LeadingDigits(TrimLeft(s)))
  }

  /** Parses one colour-file line, rejecting anything that is not an optionally
      padded unsigned decimal number. */
  method StringToIntegerSafe(s: string) returns (r: ParseResult)
    requires |s| < NO_DIGIT_YET
    ensures r == ParseColorLine(s)
    ensures r.Number? <==> IsPaddedNumber(s)
  {
    // First pass: stop at a character that is neither digit nor whitespace,
    // and note where the digits begin and end.
    var first: int := NO_DIGIT_YET;
    var last: int := -1;
    var i := 0;
    while i < |s|
      invariant 0 <= i <= |s|
      invariant forall k :: 0 <= k < i ==> IsDigit(s[k]) || IsSpace(s[k])
      invariant last == -1 ==> first == NO_DIGIT_YET && forall k :: 0 <= k < i ==> !IsDigit(s[k])
      invariant last != -1 ==> 0 <= first <= last < i && IsDigit(s[first]) && IsDigit(s[last])
      invariant last != -1 ==> forall k :: 0 <= k < first ==> !IsDigit(s[k])
      invariant last != -1 ==> forall k :: last < k < i ==> !IsDigit(s[k])
    {
      if !IsDigit(s[i]) && !IsSpace(s[i]) {
        RejectsForeignChar(s, i);
        return CouldNotParse(s);
      }
      if IsDigit(s[i]) {
        first := if first < i then first else i;
        last := if last > i then last else i;
      }
      i := i + 1;
    }
    if last == -1 {
      RejectsNoDigits(s);
      return CouldNotParse(s);
    }

    // Second pass: everything from the first to the last digit must be a digit.
    TrimIsDigitBlock(s, first, last);
    i := first;
    while i <= last
      invariant first <= i <= last + 1
      invariant forall k :: first <= k < i ==> IsDigit(s[k])
    {
      if !IsDigit(s[i]) {
        assert Trim(s)[i - first] == s[i];
        return CouldNotParse(s);
      }
      i := i + 1;
    }

    // The line is a padded digit block, so reading its leading number gives its value.
    assert s[first..last + 1] == Trim(s);
    StollReadsDigitBlock(s, first, last);
    r := Number(Stoll(s));
  }

  /** Dropping `n` leading whitespace characters that are followed by a
      non-space (or by nothing) is exactly what `TrimLeft` does. */
  lemma {:induction false} TrimLeftAt(s: string, n: nat)
    requires n <= |s| && AllSpace(s[..n])
    requires n == |s| || !IsSpace(s[n])
    ensures TrimLeft(s) == s[n..]
    decreases n
  {
    if n > 0 {
      assert IsSpace(s[..n][0]);
      assert s[1..][..n - 1] == s[..n][1..];
      TrimLeftAt(s[1..], n - 1);
      assert s[1..][n - 1..] == s[n..];
    }
  }

  /** Symmetric to `TrimLeftAt`, at the end of the string. */
  lemma {:induction false} TrimRightAt(s: string, n: nat)
    requires n <= |s| && AllSpace(s[n..])
    requires n == 0 || !IsSpace(s[n - 1])
    ensures TrimRight(s) == s[..n]
    decreases |s| - n
  {
    if n < |s| {
      var s' := s[..|s| - 1];
      assert IsSpace(s[n..][|s| - 1 - n]);
      assert s'[n..] == s[n..][..|s| - 1 - n];
      TrimRightAt(s', n);
      assert s'[..n] == s[..n];
    } else {
      assert s[..n] == s;
    }
  }

  /** `TrimLeft` removes only whitespace: `s` is some whitespace followed by it. */
  lemma {:induction false} TrimLeftShape(s: string) returns (n: nat)
    ensures n <= |s| && TrimLeft(s) == s[n..]
    ensures forall k :: 0 <= k < n ==> IsSpace(s[k])
    decreases |s|
  {
    if s != [] && IsSpace(s[0]) {
      var m := TrimLeftShape(s[1..]);
      n := m + 1;
      assert s[1..][m..] == s[n..];
      assert forall k :: 1 <= k < n ==> s[k] == s[1..][k - 1];
    } else {
      n := 0;
    }
  }

  /** `TrimRight` removes only whitespace: it is followed in `s` by whitespace. */
  lemma {:induction false} TrimRightShape(s: string) returns (n: nat)
    ensures n <= |s| && TrimRight(s) == s[..n]
    ensures forall k :: n <= k < |s| ==> IsSpace(s[k])
    decreases |s|
  {
    if s != [] && IsSpace(s[|s| - 1]) {
      var s' := s[..|s| - 1];
      n := TrimRightShape(s');
      assert s'[..n] == s[..n];
      assert forall k :: n <= k < |s| - 1 ==> s[k] == s'[k];
    } else {
      n := |s|;
      assert s[..n] == s;
    }
  }

  /** Trimming keeps a slice `s[a..b]` and drops only whitespace around it. */
  lemma TrimShape(s: string) returns (a: nat, b: nat)
    ensures a <= b <= |s| && Trim(s) == s[a..b]
    ensures forall k :: 0 <= k < a ==> IsSpace(s[k])
    ensures forall k :: b <= k < |s| ==> IsSpace(s[k])
  {
    a := TrimLeftShape(s);
    var t := s[a..];
    var n := TrimRightShape(t);
    b := a + n;
    assert t[..n] == s[a..b];
    assert forall k :: b <= k < |s| ==> s[k] == t[k - a];
  }

  /** When every character is a digit or whitespace and the digits lie between
      `first` and `last` (both digits), trimming leaves exactly `s[first..last+1]`. */
  lemma TrimIsDigitBlock(s: string, first: nat, last: nat)
    requires first <= last < |s| && IsDigit(s[first]) && IsDigit(s[last])
    requires forall k :: 0 <= k < |s| ==> IsDigit(s[k]) || IsSpace(s[k])
    requires forall k :: 0 <= k < first ==> !IsDigit(s[k])
    requires forall k :: last < k < |s| ==> !IsDigit(s[k])
    ensures Trim(s) == s[first..last + 1]
  {
    TrimLeftAt(s, first);
    var t := s[first..];
    assert forall k :: last + 1 - first <= k < |t| ==> t[k] == s[k + first];
    TrimRightAt(t, last + 1 - first);
    assert t[..last + 1 - first] == s[first..last + 1];
  }

  /** The digit prefix is the only digit block that is followed by a non-digit. */
  lemma LeadingDigitsAt(t: string, n: nat)
    requires n <= |t| && AllDigits(t[..n])
    requires n == |t| || !IsDigit(t[n])
    ensures LeadingDigits(t) == t[..n]
  {
    var d := LeadingDigits(t);
    assert forall k :: 0 <= k < n ==> IsDigit(t[k]) by {
      forall k | 0 <= k < n ensures IsDigit(t[k]) { assert t[..n][k] == t[k]; }
    }
  }

  /** Under the same conditions, with an all-digit block, `stoll` reads that block. */
  lemma StollReadsDigitBlock(s: string, first: nat, last: nat)
    requires first <= last < |s|
    requires AllSpace(s[..first])
    requires AllDigits(s[first..last + 1])
    requires last + 1 == |s| || !IsDigit(s[last + 1])
    ensures Stoll(s) == DecimalValue(s[first..last + 1])
  {
    assert s[first..][0] == s[first..last + 1][0];
    TrimLeftAt(s, first);
    var t := s[first..];
    assert t[..last + 1 - first] == s[first..last + 1];
    LeadingDigitsAt(t, last + 1 - first);
  }

  /** A character that is neither a digit nor whitespace makes the line invalid. */
  lemma RejectsForeignChar(s: string, i: nat)
    requires i < |s| && !IsDigit(s[i]) && !IsSpace(s[i])
    ensures !IsPaddedNumber(s)
    ensures ParseColorLine(s) == CouldNotParse(s)
  {
    var a, b := TrimShape(s);
    assert Trim(s)[i - a] == s[i];
  }

  /** A line without any digit (the empty line included) is invalid. */
  lemma RejectsNoDigits(s: string)
    requires forall k :: 0 <= k < |s| ==> !IsDigit(s[k])
    ensures !IsPaddedNumber(s)
    ensures ParseColorLine(s) == CouldNotParse(s)
  {
    var a, b := TrimShape(s);
    if a < b {
      assert Trim(s)[0] == s[a];
    }
  }

  /** Whitespace between two digits makes the line invalid. */
  lemma RejectsInternalSpace(s: string, i: nat, j: nat, k: nat)
    requires i < j < k < |s|
    requires IsDigit(s[i]) && !IsDigit(s[j]) && IsDigit(s[k])
    ensures !IsPaddedNumber(s)
    ensures ParseColorLine(s) == CouldNotParse(s)
  {
    var a, b := TrimShape(s);
    // both digits lie inside the trimmed block, so `j` does too
    assert a <= i && k < b;
    assert Trim(s)[j - a] == s[j];
  }

  /** `s` is whitespace, then the digits `s[i..j]` (at least one), then whitespace. */
  predicate DigitBlockAt(s: string, i: int, j: int) {
    0 <= i < j <= |s| && AllSpace(s[..i]) && AllDigits(s[i..j]) && AllSpace(s[j..])
  }

  /** The accepted lines are exactly: whitespace, then a non-empty digit block,
      then whitespace; and the value is that of the digit block. */
  lemma {:induction false} AcceptedShape(s: string)
    ensures IsPaddedNumber(s) <==> exists i, j :: DigitBlockAt(s, i, j)
    ensures forall i, j :: DigitBlockAt(s, i, j) ==> ParseColorLine(s) == Number(DecimalValue(s[i..j]))
  {
    forall i, j | DigitBlockAt(s, i, j)
      ensures Trim(s) == s[i..j] && IsPaddedNumber(s)
    {
      assert IsDigit(s[i..j][0]);
      TrimLeftAt(s, i);
      var t := s[i..];
      assert t[j - i..] == s[j..];
      assert IsDigit(s[i..j][j - i - 1]);
      TrimRightAt(t, j - i);
      assert t[..j - i] == s[i..j];
    }
    if IsPaddedNumber(s) {
      var a, b := TrimShape(s);
      assert AllSpace(s[..a]) by {
        forall k | 0 <= k < a ensures IsSpace(s[..a][k]) { assert s[..a][k] == s[k]; }
      }
      assert AllSpace(s[b..]) by {
        forall k | 0 <= k < |s| - b ensures IsSpace(s[b..][k]) { assert s[b..][k] == s[b + k]; }
      }
      assert DigitBlockAt(s, a, b);
    }
  }

  /** The decimal text of a non-negative integer, as `operator<<` writes it. */
  function ToDecimal(n: nat): (d: string)
    ensures |d| > 0 && AllDigits(d)
  {
    if n < 10 then [DigitChar(n)] else ToDecimal(n / 10) + [DigitChar(n % 10)]
  }

  lemma {:induction false} DecimalValueOfToDecimal(n: nat)
    ensures DecimalValue(ToDecimal(n)) == n
  {
    if n >= 10 {
      DecimalValueOfToDecimal(n / 10);
      var d := ToDecimal(n);
      assert d[..|d| - 1] == ToDecimal(n / 10);
    }
  }

  /** Round trip: every non-negative integer written in decimal, with any
      whitespace padding around it, parses back to itself. */
  lemma ParsesPaddedDecimal(n: nat, pre: string, post: string)
    requires AllSpace(pre) && AllSpace(post)
    ensures ParseColorLine(pre + ToDecimal(n) + post) == Number(n)
  {
    var d := ToDecimal(n);
    var s := pre + d + post;
    var i, j := |pre|, |pre| + |d|;
    assert s[..i] == pre && s[i..j] == d && s[j..] == post;
    assert DigitBlockAt(s, i, j);
    AcceptedShape(s);
    DecimalValueOfToDecimal(n);
  }
}
