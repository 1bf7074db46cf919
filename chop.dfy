/** The chopping rule of `split_all_seqs_at_non_ACGT`: every read is cut into
    its maximal runs of A/C/G/T, and each piece keeps the colour of the read it
    came from. A character other than an upper-case letter rejects the input,
    and so does an input that leaves no piece at all. */
module Chopping {
  import opened Chars
  import opened MaximalRuns

  datatype Option<T> = None | Some(value: T)

  /** One output sequence: a run of bases and the colour of its source read. */
  datatype Piece = Piece(bases: string, color: nat)

  datatype ChopError =
    | InvalidCharacter(c: char)  // a character the scan does not accept
    | NoPiecesLeft               // no base survives the chopping

  datatype ChopResult = Chopped(pieces: seq<Piece>) | ChopFailed(error: ChopError)

  /** The characters the scan lets through: upper-case letters, and '$', the
      marker the scan writes after each read (and so also lets through inside one). */
  predicate IsAccepted(c: char) {
    ('A' <= c <= 'Z') || c == '$'
  }

  /** The first character of `s` the scan rejects, if any. */
  function FirstRejected(s: string): Option<char>
    decreases |s|
  {
    if s == [] then None
    else match FirstRejected(s[..|s| - 1])
      case Some(c) => Some(c)
      case None => if IsAccepted(s[|s| - 1]) then None else Some(s[|s| - 1])
  }

  /** The first rejected character over all reads, in input order. */
  function FirstRejectedIn(seqs: seq<string>): Option<char>
    decreases |seqs|
  {
    if seqs == [] then None
    else match FirstRejectedIn(seqs[..|seqs| - 1])
      case Some(c) => Some(c)
      case None => FirstRejected(seqs[|seqs| - 1])
  }

  /** The runs of one read, each labelled with the read's colour. */
  function Tag(runs: seq<string>, color: nat): (ps: seq<Piece>) {
    seq(|runs|, k requires 0 <= k < |runs| => Piece(runs[k], color))
  }

  /** The base strings of a list of pieces. */
  function Bases(ps: seq<Piece>): seq<string> {
    seq(|ps|, k requires 0 <= k < |ps| => ps[k].bases)
  }

  /** All pieces of all reads, read by read and left to right within a read. */
  function PiecesOf(seqs: seq<string>, colors: seq<nat>): seq<Piece>
    requires |colors| >= |seqs|
    decreases |seqs|
  {
    if seqs == [] then []
    else
      var n := |seqs| - 1;
      PiecesOf(seqs[..n], colors) + Tag(Runs(seqs[n], IsBase), colors[n])
  }

  /** What the chopping produces for the reads and their colours. */
  function Chop(seqs: seq<string>, colors: seq<nat>): ChopResult
    requires |colors| >= |seqs|
  {
    match FirstRejectedIn(seqs)
    case Some(c) => ChopFailed(InvalidCharacter(c))
    case None =>
      var ps := PiecesOf(seqs, colors);
      if ps == [] then ChopFailed(NoPiecesLeft) else Chopped(ps)
  }

  /** Chops every read into its maximal ACGT runs, giving each piece the colour
      of its read. An empty read contributes no piece and the scan goes on. */
  method SplitAllSeqsAtNonACGT(seqs: seq<string>, colors: seq<nat>) returns (r: ChopResult)
    requires |colors| >= |seqs|
    ensures r == Chop(seqs, colors)
  {
    var out: seq<Piece> := [];
    var seqId := 0;
    var nWritten := 0;
    while seqId < |seqs|
      invariant 0 <= seqId <= |seqs|
      invariant FirstRejectedIn(seqs[..seqId]) == None
      invariant out == PiecesOf(seqs[..seqId], colors)
      invariant nWritten == |out|
    {
      var pieces, rejected := ScanRead(seqs[seqId], colors[seqId]);
      assert seqs[..seqId + 1][..seqId] == seqs[..seqId];
      if rejected.Some? {
        FirstRejectedInPrefix(seqs, seqId + 1);
        return ChopFailed(InvalidCharacter(rejected.value));
      }
      out := out + pieces;
      nWritten := nWritten + |pieces|;
      seqId := seqId + 1;
    }
    assert seqs[..seqId] == seqs;
    if nWritten == 0 {
      return ChopFailed(NoPiecesLeft);
    }
    return Chopped(out);
  }

  /** The scan of one read: its first rejected character if there is one,
      and otherwise its maximal ACGT runs, each labelled with `color`. */
  method ScanRead(read: string, color: nat) returns (pieces: seq<Piece>, rejected: Option<char>)
    ensures rejected == FirstRejected(read)
    ensures rejected == None ==> pieces == Tag(Runs(read, IsBase), color)
  {
    // The scan reads one position past the end, where '$' stands, so that
    // the last piece of the read is emitted like all the others.
    ghost var buf := read + ['$'];
    ghost var done: string := [];
    var newSeq: string := [];
    pieces := [];
    var i := 0;
    while i <= |read|
      invariant 0 <= i <= |read| + 1
      invariant buf[..i] == done + newSeq
      invariant FirstRejected(buf[..i]) == None
      invariant AllIn(newSeq, IsBase)
      invariant done == [] || !IsBase(done[|done| - 1])
      invariant pieces == Tag(Runs(done, IsBase), color)
      invariant i == |read| + 1 ==> newSeq == []
    {
      var c := if i == |read| then '$' else read[i];
      if !('A' <= c <= 'Z') && c != '$' {
        RejectAt(read, i);
        return pieces, Some(c);
      }
      AcceptOne(buf, i);
      if c == 'A' || c == 'C' || c == 'G' || c == 'T' {
        ExtendRun(buf, i, done, newSeq);
        newSeq := newSeq + [c];
      } else {
        CloseRun(buf, i, done, newSeq, color);
        if |newSeq| > 0 {
          pieces := pieces + [Piece(newSeq, color)];
        }
        done := done + newSeq + [c];
        newSeq := [];
      }
      i := i + 1;
    }
    assert buf[..i] == buf;
    EndOfRead(read, done);
    rejected := None;
  }

  /** A base extends the pending run. */
  lemma ExtendRun(buf: string, i: nat, done: string, pending: string)
    requires i < |buf| && buf[..i] == done + pending && IsBase(buf[i])
    requires AllIn(pending, IsBase)
    ensures buf[..i + 1] == done + (pending + [buf[i]])
    ensures AllIn(pending + [buf[i]], IsBase)
  {
    assert buf[..i + 1] == buf[..i] + [buf[i]];
  }

  /** Closing the pending run at a non-base character: the runs of everything
      scanned so far are those of `done`, then `pending` if non-empty. */
  lemma CloseRun(buf: string, i: nat, done: string, pending: string, color: nat)
    requires i < |buf| && buf[..i] == done + pending && !IsBase(buf[i])
    requires done == [] || !IsBase(done[|done| - 1])
    requires AllIn(pending, IsBase)
    ensures buf[..i + 1] == done + pending + [buf[i]]
    ensures Tag(Runs(done + pending + [buf[i]], IsBase), color)
      == Tag(Runs(done, IsBase), color) + (if pending == [] then [] else [Piece(pending, color)])
  {
    var c := buf[i];
    assert buf[..i + 1] == buf[..i] + [c];
    RunsDropTrailing(done + pending, c, IsBase);
    RunsAfterBreak(done, pending, IsBase);
    if pending == [] {
      RunsOfNone(pending, IsBase);
      assert done + pending == done;
      assert Runs(done + pending + [c], IsBase) == Runs(done, IsBase);
    } else {
      RunsOfRun(pending, IsBase);
      assert Runs(done + pending + [c], IsBase) == Runs(done, IsBase) + [pending];
    }
  }

  /** A rejected character after a rejection-free prefix is the first
      rejected character of the read. */
  lemma RejectAt(read: string, i: nat)
    requires i < |read| && FirstRejected((read + ['$'])[..i]) == None && !IsAccepted(read[i])
    ensures FirstRejected(read) == Some(read[i])
  {
    var prefix := read[..i + 1];
    assert prefix[..|prefix| - 1] == (read + ['$'])[..i];
    assert prefix[|prefix| - 1] == read[i];
    assert FirstRejected(prefix) == Some(read[i]);
    FirstRejectedPrefix(read, i + 1);
  }

  /** An accepted character keeps the scanned prefix free of rejections. */
  lemma AcceptOne(buf: string, i: nat)
    requires i < |buf| && FirstRejected(buf[..i]) == None && IsAccepted(buf[i])
    ensures FirstRejected(buf[..i + 1]) == None
  {
    assert buf[..i + 1][..i] == buf[..i];
  }

  /** Once the '$' after the read has been scanned without a rejection, the
      read itself has none, and its runs are those of everything scanned. */
  lemma EndOfRead(read: string, done: string)
    requires done == read + ['$'] && FirstRejected(done) == None
    ensures FirstRejected(read) == None
    ensures Runs(done, IsBase) == Runs(read, IsBase)
  {
    assert done[..|done| - 1] == read;
    RunsDropTrailing(read, '$', IsBase);
  }

  /** A rejection found in a prefix is the rejection of the whole string. */
  lemma {:induction false} FirstRejectedPrefix(s: string, j: nat)
    requires j <= |s| && FirstRejected(s[..j]).Some?
    ensures FirstRejected(s) == FirstRejected(s[..j])
    decreases |s| - j
  {
    if j < |s| {
      assert s[..j + 1][..j] == s[..j];
      FirstRejectedPrefix(s, j + 1);
    } else {
      assert s[..j] == s;
    }
  }

  /** The same, over the list of reads. */
  lemma {:induction false} FirstRejectedInPrefix(seqs: seq<string>, j: nat)
    requires j <= |seqs| && FirstRejectedIn(seqs[..j]).Some?
    ensures FirstRejectedIn(seqs) == FirstRejectedIn(seqs[..j])
    decreases |seqs| - j
  {
    if j < |seqs| {
      assert seqs[..j + 1][..j] == seqs[..j];
      FirstRejectedInPrefix(seqs, j + 1);
    } else {
      assert seqs[..j] == seqs;
    }
  }

  /** A string has no rejected character exactly when it is all accepted. */
  lemma {:induction false} FirstRejectedNone(s: string)
    ensures FirstRejected(s) == None <==> forall k :: 0 <= k < |s| ==> IsAccepted(s[k])
    decreases |s|
  {
    if s != [] {
      var a := s[..|s| - 1];
      FirstRejectedNone(a);
      assert forall k :: 0 <= k < |a| ==> a[k] == s[k];
    }
  }

  /** Every character of `s` passes the check. */
  predicate AllAccepted(s: string) {
    forall k :: 0 <= k < |s| ==> IsAccepted(s[k])
  }

  /** Position `j` of `s` holds the first character the check rejects. */
  predicate FirstRejectedAt(s: string, j: nat) {
    j < |s| && !IsAccepted(s[j]) && AllAccepted(s[..j])
  }

  /** The reported character is the first rejected character of the string,
      the one the scan stops at. */
  lemma {:induction false} FirstRejectedIsFirst(s: string)
    requires FirstRejected(s).Some?
    ensures exists j: nat :: FirstRejectedAt(s, j) && s[j] == FirstRejected(s).value
    decreases |s|
  {
    var n := |s| - 1;
    var a := s[..n];
    if FirstRejected(a).Some? {
      FirstRejectedIsFirst(a);
      var j: nat :| FirstRejectedAt(a, j) && a[j] == FirstRejected(a).value;
      assert s[..j] == a[..j] && s[j] == a[j];
      assert FirstRejectedAt(s, j);
    } else {
      FirstRejectedNone(a);
      assert s[..n] == a;
      assert FirstRejectedAt(s, n);
    }
  }

  lemma {:induction false} FirstRejectedInNone(seqs: seq<string>)
    ensures FirstRejectedIn(seqs) == None <==>
      forall k :: 0 <= k < |seqs| ==> FirstRejected(seqs[k]) == None
    decreases |seqs|
  {
    if seqs != [] {
      var a := seqs[..|seqs| - 1];
      FirstRejectedInNone(a);
      assert forall k :: 0 <= k < |a| ==> a[k] == seqs[k];
    }
  }

  /** Read `k`, position `j` holds the first rejected character of the whole
      input: every earlier read passes the check, and so does every earlier
      character of read `k`. */
  predicate FirstRejectedInAt(seqs: seq<string>, k: nat, j: nat) {
    k < |seqs| && FirstRejectedAt(seqs[k], j)
    && forall m :: 0 <= m < k ==> AllAccepted(seqs[m])
  }

  /** The character reported over all reads is the first one the scan, read
      by read, rejects. */
  lemma {:induction false} FirstRejectedInIsFirst(seqs: seq<string>)
    requires FirstRejectedIn(seqs).Some?
    ensures exists k: nat, j: nat :: FirstRejectedInAt(seqs, k, j) && seqs[k][j] == FirstRejectedIn(seqs).value
    decreases |seqs|
  {
    var n := |seqs| - 1;
    var a := seqs[..n];
    if FirstRejectedIn(a).Some? {
      FirstRejectedInIsFirst(a);
      var k: nat, j: nat :| FirstRejectedInAt(a, k, j) && a[k][j] == FirstRejectedIn(a).value;
      assert forall m :: 0 <= m <= k ==> seqs[m] == a[m];
      assert FirstRejectedInAt(seqs, k, j);
    } else {
      FirstRejectedInNone(a);
      forall m | 0 <= m < n ensures AllAccepted(seqs[m]) {
        assert seqs[m] == a[m];
        FirstRejectedNone(a[m]);
      }
      FirstRejectedIsFirst(seqs[n]);
      var j: nat :| FirstRejectedAt(seqs[n], j) && seqs[n][j] == FirstRejected(seqs[n]).value;
      assert FirstRejectedInAt(seqs, n, j);
    }
  }

  /** Every piece is a non-empty string of bases. */
  lemma {:induction false} PiecesAreBases(seqs: seq<string>, colors: seq<nat>)
    requires |colors| >= |seqs|
    ensures forall m :: 0 <= m < |PiecesOf(seqs, colors)| ==>
      |PiecesOf(seqs, colors)[m].bases| > 0 && AllIn(PiecesOf(seqs, colors)[m].bases, IsBase)
    decreases |seqs|
  {
    if seqs != [] {
      PiecesAreBases(seqs[..|seqs| - 1], colors);
    }
  }

  /** Piece `p` is one of the maximal ACGT runs of read `k` and carries its colour. */
  predicate ComesFrom(p: Piece, seqs: seq<string>, colors: seq<nat>, k: nat)
    requires |colors| >= |seqs|
  {
    k < |seqs| && p.color == colors[k] && p.bases in Runs(seqs[k], IsBase)
  }

  /** Every piece is one of the maximal ACGT runs of some read, and carries
      that read's colour. */
  lemma {:induction false} PieceOrigin(seqs: seq<string>, colors: seq<nat>, m: nat)
    requires |colors| >= |seqs| && m < |PiecesOf(seqs, colors)|
    ensures exists k :: ComesFrom(PiecesOf(seqs, colors)[m], seqs, colors, k)
    decreases |seqs|
  {
    var n := |seqs| - 1;
    var init := PiecesOf(seqs[..n], colors);
    var ps := PiecesOf(seqs, colors);
    if m < |init| {
      PieceOrigin(seqs[..n], colors, m);
      var k: nat :| ComesFrom(init[m], seqs[..n], colors, k);
      assert ps[m] == init[m] && seqs[..n][k] == seqs[k];
      assert ComesFrom(ps[m], seqs, colors, k);
    } else {
      var rs := Runs(seqs[n], IsBase);
      assert ps[m] == Piece(rs[m - |init|], colors[n]);
      assert ComesFrom(ps[m], seqs, colors, n);
    }
  }

  lemma BasesAppend(a: seq<Piece>, b: seq<Piece>)
    ensures Bases(a + b) == Bases(a) + Bases(b)
  {
  }

  lemma ConcatSnoc(init: seq<string>, last: string)
    ensures Concat(init + [last]) == Concat(init) + last
  {
    ConcatAppend(init, [last]);
    assert Concat([last]) == last + Concat([]);
  }

  /** Gluing all pieces together gives the bases of the input, in input
      order: chopping drops exactly the characters that are not A/C/G/T. */
  lemma {:induction false} PiecesConcat(seqs: seq<string>, colors: seq<nat>)
    requires |colors| >= |seqs|
    ensures Concat(Bases(PiecesOf(seqs, colors))) == Filter(Concat(seqs), IsBase)
    decreases |seqs|
  {
    if seqs != [] {
      var n := |seqs| - 1;
      var init, last := seqs[..n], seqs[n];
      var rs := Runs(last, IsBase);
      var front := Bases(PiecesOf(init, colors));
      calc {
        Concat(Bases(PiecesOf(seqs, colors)));
        { BasesAppend(PiecesOf(init, colors), Tag(rs, colors[n]));
          assert Bases(Tag(rs, colors[n])) == rs; }
        Concat(front + rs);
        { ConcatAppend(front, rs); }
        Concat(front) + Concat(rs);
        { PiecesConcat(init, colors); RunsConcat(last, IsBase); }
        Filter(Concat(init), IsBase) + Filter(last, IsBase);
        { FilterAppend(Concat(init), last, IsBase); }
        Filter(Concat(init) + last, IsBase);
        { assert seqs == init + [last]; ConcatSnoc(init, last); }
        Filter(Concat(seqs), IsBase);
      }
    }
  }

  /** A character that is neither an upper-case letter nor '$' makes the
      chopping fail with `InvalidCharacter` (lower-case bases included). The
      error names the first rejected character of the input, which is at or
      before the one at read `k`, position `j`. */
  lemma ChopRejects(seqs: seq<string>, colors: seq<nat>, k: nat, j: nat)
    requires |colors| >= |seqs| && k < |seqs| && j < |seqs[k]|
    requires !IsAccepted(seqs[k][j])
    ensures Chop(seqs, colors).ChopFailed? && Chop(seqs, colors).error.InvalidCharacter?
    ensures exists k': nat, j': nat :: (FirstRejectedInAt(seqs, k', j')
      && seqs[k'][j'] == Chop(seqs, colors).error.c
      && (k' < k || (k' == k && j' <= j)))
  {
    FirstRejectedNone(seqs[k]);
    FirstRejectedInNone(seqs);
    FirstRejectedInIsFirst(seqs);
  }

  /** Input that is all accepted but holds no base at all leaves no piece. */
  lemma ChopNoPieces(seqs: seq<string>, colors: seq<nat>)
    requires |colors| >= |seqs|
    requires forall k, j :: 0 <= k < |seqs| && 0 <= j < |seqs[k]| ==> IsAccepted(seqs[k][j])
    requires forall k, j :: 0 <= k < |seqs| && 0 <= j < |seqs[k]| ==> !IsBase(seqs[k][j])
    ensures Chop(seqs, colors) == ChopFailed(NoPiecesLeft)
  {
    forall k | 0 <= k < |seqs| ensures FirstRejected(seqs[k]) == None {
      FirstRejectedNone(seqs[k]);
    }
    FirstRejectedInNone(seqs);
    NoBasesNoPieces(seqs, colors);
  }

  lemma {:induction false} NoBasesNoPieces(seqs: seq<string>, colors: seq<nat>)
    requires |colors| >= |seqs|
    requires forall k, j :: 0 <= k < |seqs| && 0 <= j < |seqs[k]| ==> !IsBase(seqs[k][j])
    ensures PiecesOf(seqs, colors) == []
    decreases |seqs|
  {
    if seqs != [] {
      var n := |seqs| - 1;
      NoBasesNoPieces(seqs[..n], colors);
      RunsOfNone(seqs[n], IsBase);
    }
  }

  /** Input that is all accepted and holds at least one base is chopped successfully. */
  lemma ChopSucceeds(seqs: seq<string>, colors: seq<nat>, k: nat, j: nat)
    requires |colors| >= |seqs|
    requires forall k, j :: 0 <= k < |seqs| && 0 <= j < |seqs[k]| ==> IsAccepted(seqs[k][j])
    requires k < |seqs| && j < |seqs[k]| && IsBase(seqs[k][j])
    ensures Chop(seqs, colors).Chopped?
  {
    forall k | 0 <= k < |seqs| ensures FirstRejected(seqs[k]) == None {
      FirstRejectedNone(seqs[k]);
    }
    FirstRejectedInNone(seqs);
    SomeBaseSomePiece(seqs, colors, k, j);
  }

  lemma {:induction false} SomeBaseSomePiece(seqs: seq<string>, colors: seq<nat>, k: nat, j: nat)
    requires |colors| >= |seqs| && k < |seqs| && j < |seqs[k]| && IsBase(seqs[k][j])
    ensures PiecesOf(seqs, colors) != []
    decreases |seqs|
  {
    var n := |seqs| - 1;
    if k < n {
      assert seqs[..n][k] == seqs[k];
      SomeBaseSomePiece(seqs[..n], colors, k, j);
    } else {
      RunsOfBase(seqs[k], j);
    }
  }

  /** A string with a base has at least one run of bases. */
  lemma {:induction false} RunsOfBase(s: string, j: nat)
    requires j < |s| && IsBase(s[j])
    ensures Runs(s, IsBase) != []
    decreases |s|
  {
    RunsConcat(s, IsBase);
    FilterKeeps(s, j);
  }

  lemma {:induction false} FilterKeeps(s: string, j: nat)
    requires j < |s| && IsBase(s[j])
    ensures Filter(s, IsBase) != []
    decreases |s|
  {
    if j > 0 && !IsBase(s[0]) {
      FilterKeeps(s[1..], j - 1);
    }
  }
}
