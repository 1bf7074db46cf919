# Themisto string and sequence helpers, in Dafny

This project models the string and sequence helpers of Themisto's
`src/globals.cpp`, the utilities that prepare the input of the colored
de Bruijn graph index, and proves what each one promises:

- **`string_to_integer_safe`** (`IntegerParsing`) is the strict parser for one
  colour-file line. It accepts optional whitespace, one run of decimal
  digits and optional whitespace, and rejects anything else. The method
  follows the source's two scans (the first and last digit positions, then
  the check for internal whitespace). It is proved equal to the reference
  function `ParseColorLine`, and the accepted shape is characterised both ways.
- **`colex_compare`** (`Colex`) orders strings from their last character
  backwards. The loop is proved to compute lexicographic order on the
  reversed strings. That order is proved to be a strict total order in which
  a proper suffix comes first.
- **`split(text, delimiter)`**, its `const char*` forwarder, and **`split(text)`**
  (`Split`). The delimiter split is the source's two-pass algorithm over the
  delimiter index vector. It returns one token more than there are
  delimiters, no token holds the delimiter, and joining the tokens gives the
  text back. It is also the only token list with these properties. The
  whitespace split yields the maximal runs of non-whitespace, in order.
- **The chopping rule of `split_all_seqs_at_non_ACGT`** (`Chopping`). Every
  read is cut into its maximal runs of A/C/G/T, and each piece is labelled
  with its read's colour. The scan stops with an error at the first
  character that is not an upper-case letter (lower-case bases included).
  It also fails when no piece is produced at all.
- **`fix_char`** (`Alphabet`) resolves IUPAC (NC-IUB 1984) nucleotide codes to
  a concrete base. The pseudo-random draw is a parameter `rd`.

`MaximalRuns` holds the notion that whitespace splitting and ACGT chopping
share: the maximal runs of a character class, with their concatenation,
splitting and boundary laws. `Chars` holds the character classes of the C
locale (`isdigit`, `isspace`, `toupper`) and the four bases.

The scan in `split_all_seqs_at_non_ACGT` writes `'$'` after each read and
only rejects a character when it is neither an upper-case letter nor `'$'`.
So a `'$'` inside a read is accepted and, like every accepted character
other than A/C/G/T, it ends a piece. The model follows the code here (`Chopping.IsAccepted`).

## Model

| member | source | states |
|---|---|---|
| IntegerParsing.StringToIntegerSafe | src/globals.cpp:53-74 | the two scans return exactly `ParseColorLine(s)`: a number precisely when the line is whitespace, digits, whitespace, and an error carrying the line otherwise |
| IntegerParsing.AcceptedShape | src/globals.cpp:58-73 | a line is accepted if and only if it splits as whitespace, a non-empty digit block, whitespace; the result is the decimal value of that block |
| IntegerParsing.RejectsForeignChar | src/globals.cpp:59-60 | any character that is neither a digit nor whitespace makes the parse fail |
| IntegerParsing.RejectsNoDigits | src/globals.cpp:66 | a line without digits (the empty line included) makes the parse fail |
| IntegerParsing.RejectsInternalSpace | src/globals.cpp:68-70 | a non-digit between two digits makes the parse fail |
| IntegerParsing.ParsesPaddedDecimal | src/globals.cpp:53-74 | round trip: the decimal digits of any `n`, padded with whitespace on either side, parse back to `n` |
| IntegerParsing.DecimalValueOfToDecimal | src/globals.cpp:73 | the digit string of `n` has decimal value `n`, so every non-negative colour is expressible |
| Colex.ColexCompare | src/globals.cpp:227-239 | the loop returns true exactly when `s` is lexicographically below `t` read backwards |
| Colex.ColexIrreflexive | src/globals.cpp:227-239 | no string is smaller than itself |
| Colex.ColexAsymmetric | src/globals.cpp:227-239 | of two strings at most one is smaller than the other |
| Colex.ColexTransitive | src/globals.cpp:227-239 | the order is transitive |
| Colex.ColexTotal | src/globals.cpp:227-239 | two different strings are always ordered one way or the other |
| Colex.ProperSuffixFirst | src/globals.cpp:229-233 | a proper suffix is smaller than the longer string and not the other way round |
| Colex.ColexByLastChar | src/globals.cpp:234-236 | the last characters decide, and only when they are equal does the rest decide |
| Split.SplitAt | src/globals.cpp:251-268 | on non-empty text: the number of delimiters plus one tokens, none holding the delimiter, joining back to the text (empty tokens included) |
| Split.DelimiterIndices | src/globals.cpp:253-259 | the first pass collects exactly the delimiter positions in increasing order, framed by -1 and the text length |
| Split.JoinInjective | src/globals.cpp:251-268 | two delimiter-free token lists with the same join are equal, so `SplitAt` returns the only such list and splitting a join returns its tokens |
| Split.JoinOccurrences | src/globals.cpp:254-259 | joining `n` delimiter-free tokens puts exactly `n - 1` delimiters into the text |
| Split.SplitCString | src/globals.cpp:270-272 | the `const char*` overload splits the characters before the first NUL, with the same three guarantees |
| Split.CString | src/globals.cpp:271 | the text of a NUL-terminated buffer is its longest NUL-free prefix |
| Split.SplitWhitespace | src/globals.cpp:243-248 | the tokens are non-empty, whitespace-free, and concatenate to the text with all whitespace removed |
| Split.SplitWhitespaceAtSpace | src/globals.cpp:243-248 | a whitespace character always separates: the tokens of `a + [w] + b` are those of `a` then those of `b` |
| Split.SplitWhitespaceWord | src/globals.cpp:243-248 | a non-empty word without whitespace is one token |
| Split.SplitWhitespaceBlank | src/globals.cpp:243-248 | blank text (the empty text included) has no tokens |
| Split.SplitWhitespaceOfJoin | src/globals.cpp:243-248 | round trip: words joined by single spaces split back into the same words |
| MaximalRuns.RunsConcat | src/globals.cpp:115-138 | the maximal runs of a class concatenate to exactly the class characters of the string, in order |
| MaximalRuns.RunsSplitAt | src/globals.cpp:124-136 | a character outside the class ends a run: the runs of `a + [c] + b` are those of `a` then those of `b` |
| MaximalRuns.RunsOfRun | src/globals.cpp:123-124 | a non-empty string inside the class is a single run |
| MaximalRuns.RunsOfNone | src/globals.cpp:125-136 | a string with no class character has no runs |
| Chopping.SplitAllSeqsAtNonACGT | src/globals.cpp:111-141 | the scan over all reads returns exactly `Chop(seqs, colors)`: the first rejected character, or no pieces, or all pieces in read order |
| Chopping.ScanRead | src/globals.cpp:115-138 | scanning one read with the `'$'` sentinel gives its first rejected character, or else its maximal ACGT runs labelled with its colour, left to right |
| Chopping.PiecesAreBases | src/globals.cpp:123-135 | every piece is non-empty and made of A/C/G/T only |
| Chopping.PieceOrigin | src/globals.cpp:126-133 | every piece is one of the maximal ACGT runs of some read `k` and carries `colors[k]` |
| Chopping.PiecesConcat | src/globals.cpp:115-138 | the pieces glued together are the input's A/C/G/T characters in input order: only non-bases are dropped |
| Chopping.ChopRejects | src/globals.cpp:120-121 | a character outside `'A'..'Z'` (other than `'$'`), lower-case letters included, makes chopping fail with `InvalidCharacter`, naming the first rejected character of the input in scan order, which lies at or before the given one |
| Chopping.ChopNoPieces | src/globals.cpp:141 | accepted input without any base fails with `NoPiecesLeft` |
| Chopping.ChopSucceeds | src/globals.cpp:141 | accepted input with at least one base is chopped successfully |
| Chopping.FirstRejectedNone | src/globals.cpp:120-121 | a read passes the character check exactly when all its characters are accepted |
| Chopping.FirstRejectedIsFirst | src/globals.cpp:118-121 | the character the error reports is at a rejected position of the read before which every character is accepted: the one the scan stops at |
| Chopping.FirstRejectedInIsFirst | src/globals.cpp:111-121 | over all reads, the reported character sits in some read `k` at a first rejected position, and every read before `k` passes the check entirely |
| Alphabet.FixChar | src/globals.cpp:158-196 | the result is always one of A/C/G/T and is one of the bases the upper-cased code stands for |
| Alphabet.DrawFor | src/globals.cpp:146-196 | every base a code stands for is returned for some draw below 4, so the possible results are exactly the code's meaning |
| Alphabet.TableCoversMeaning | src/globals.cpp:146-156 | each conversion table lists exactly the bases its ambiguity code stands for |
| Alphabet.FixCharIsLookup | src/globals.cpp:162-195 | the switch is one table lookup, at the draw modulo the table size |
| Alphabet.FixCharKeepsBases | src/globals.cpp:159-170 | upper- or lower-case A, C, G, T come back upper-cased, whatever the draw |
| Alphabet.FixCharUracil | src/globals.cpp:171-172 | U and u become T |
| Alphabet.FixCharUnchanged | src/globals.cpp:158-196 | a character is returned unchanged if and only if it is an upper-case base |

## Left out

- File and directory handling (`create_directory_if_does_not_exist`, `check_dir_exists`, `generate_default_colorfile`), the colour-file reader `read_colorfile` and the file rewriter `fix_alphabet` are file I/O through buffered streams, the temp-file manager and logging. Only their per-line and per-character work (`string_to_integer_safe`, `fix_char`) is modelled.
- `split_all_seqs_at_non_ACGT`: the argument checks, temp-file names and FASTA/colour output are left out. The model returns the pieces and their colours as values. Pieces already written before an error are not part of the result.
- `split_all_seqs_at_non_ACGT`: the variant without a colour file writes the same pieces without colours. It is covered by ignoring the colour field.
- Chopping.SplitAllSeqsAtNonACGT: an empty read in `seqs` is skipped, whereas the source stops reading at the first zero-length read (its reader reports the end of the input that way). The reads are taken to be the ones the sequence reader delivers; the sequence reader is not part of this model.
- Chopping.SplitAllSeqsAtNonACGT: requires at least as many colours as reads, because `colors[seq_id]` is read without a bounds check.
- `fix_char`: `std::rand()` becomes the non-negative parameter `rd`. The random number generator is not modelled.
- IntegerParsing.StringToIntegerSafe: requires the line to be shorter than 10^18 characters, the sentinel the source uses for "no digit yet".
- IntegerParsing.StringToIntegerSafe: `stoll` is modelled only on the inputs that reach it (whitespace, then digits, then whitespace), and without its 64-bit overflow error. The value is an unbounded `nat`.
- Character classes are those of the C locale on ASCII. `isdigit`, `isspace` and `toupper` under other locales are not modelled.
- Colex.ColexCompare: characters are compared by code point. C++ `char` is signed on common platforms, which orders bytes from 0x80 upwards before ASCII. That is not modelled.
- Split.SplitAt: requires non-empty text, as the source's `assert` does. With assertions compiled out, the empty text would give one empty token, which is not modelled.
- `Delta_Vector` and the rest of the index (graph, colouring, pseudoalignment) are not part of this model.
