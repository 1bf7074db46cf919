/** Resolving IUPAC nucleotide codes (NC-IUB 1984 nomenclature) to a concrete
    base (`fix_char`). The pseudo-random draw that picks among the bases an
    ambiguity code stands for is a parameter `rd`. */
module Alphabet {
  import opened Chars

  // The conversion tables of the ambiguity codes, in the order the source lists them.
  const R_TABLE: string := "AG"
  const Y_TABLE: string := "CT"
  const K_TABLE: string := "GT"
  const M_TABLE: string := "AC"
  const S_TABLE: string := "CG"
  const W_TABLE: string := "AT"
  const B_TABLE: string := "CGT"
  const D_TABLE: string := "AGT"
  const H_TABLE: string := "ACT"
  const V_TABLE: string := "ACG"
  const N_TABLE: string := "ACGT"

  /** What an upper-case IUPAC code stands for: the bases themselves, U (uracil)
      read as T, the two- and three-base ambiguity codes, and any base for N
      and for every character that is not a code. */
  function Meaning(u: char): set<char> {
    match u
    case 'A' => {'A'}
    case 'C' => {'C'}
    case 'G' => {'G'}
    case 'T' => {'T'}
    case 'U' => {'T'}
    case 'R' => {'A', 'G'}
    case 'Y' => {'C', 'T'}
    case 'K' => {'G', 'T'}
    case 'M' => {'A', 'C'}
    case 'S' => {'C', 'G'}
    case 'W' => {'A', 'T'}
    case 'B' => {'C', 'G', 'T'}
    case 'D' => {'A', 'G', 'T'}
    case 'H' => {'A', 'C', 'T'}
    case 'V' => {'A', 'C', 'G'}
    case _ => {'A', 'C', 'G', 'T'}
  }

  /** The base `c` is replaced by, given the draw `rd`: the character is
      upper-cased, the four bases are kept, U becomes T, and an ambiguity code
      (or anything else) picks entry `rd` modulo the table size of its table. */
  function FixChar(c: char, rd: nat): (b: char)
    ensures IsBase(b)
    ensures b in Meaning(ToUpper(c))
  {
    var u := ToUpper(c);
    match u
    case 'A' => u
    case 'C' => u
    case 'G' => u
    case 'T' => u
    case 'U' => 'T'
    case 'R' => R_TABLE[rd % 2]
    case 'Y' => Y_TABLE[rd % 2]
    case 'K' => K_TABLE[rd % 2]
    case 'M' => M_TABLE[rd % 2]
    case 'S' => S_TABLE[rd % 2]
    case 'W' => W_TABLE[rd % 2]
    case 'B' => B_TABLE[rd % 3]
    case 'D' => D_TABLE[rd % 3]
    case 'H' => H_TABLE[rd % 3]
    case 'V' => V_TABLE[rd % 3]
    case _ => N_TABLE[rd % 4]
  }

  /** The table an upper-case code draws from (a single entry for the bases and U). */
  function TableFor(u: char): (t: string)
    ensures 0 < |t| <= 4
  {
    match u
    case 'A' => "A"
    case 'C' => "C"
    case 'G' => "G"
    case 'T' => "T"
    case 'U' => "T"
    case 'R' => R_TABLE
    case 'Y' => Y_TABLE
    case 'K' => K_TABLE
    case 'M' => M_TABLE
    case 'S' => S_TABLE
    case 'W' => W_TABLE
    case 'B' => B_TABLE
    case 'D' => D_TABLE
    case 'H' => H_TABLE
    case 'V' => V_TABLE
    case _ => N_TABLE
  }

  /** The position of `b` in `t`. */
  function IndexOf(t: string, b: char): (k: nat)
    requires b in t
    ensures k < |t| && t[k] == b
  {
    if t[0] == b then 0 else 1 + IndexOf(t[1..], b)
  }

  /** Every base a code stands for is reachable: this draw makes `FixChar`
      return `b`. So the bases `FixChar` can return for `c` are exactly
      `Meaning(ToUpper(c))`. */
  function DrawFor(c: char, b: char): (rd: nat)
    requires b in Meaning(ToUpper(c))
    ensures rd < 4 && FixChar(c, rd) == b
  {
    var t := TableFor(ToUpper(c));
    TableCoversMeaning(ToUpper(c), b);
    var k := IndexOf(t, b);
    FixCharIsLookup(c, k);
    k
  }

  /** The table of a code lists exactly the bases the code stands for. */
  lemma TableCoversMeaning(u: char, b: char)
    ensures b in Meaning(u) <==> b in TableFor(u)
  {
  }

  /** The switch is one table lookup: entry `rd` modulo the table size. */
  lemma FixCharIsLookup(c: char, rd: nat)
    ensures FixChar(c, rd) == TableFor(ToUpper(c))[rd % |TableFor(ToUpper(c))|]
  {
  }

  /** Upper- or lower-case A, C, G and T come back upper-cased whatever the draw. */
  lemma FixCharKeepsBases(c: char, rd: nat)
    requires IsBase(ToUpper(c))
    ensures FixChar(c, rd) == ToUpper(c)
  {
  }

  /** Uracil, in either case, becomes thymine. */
  lemma FixCharUracil(c: char, rd: nat)
    requires c == 'U' || c == 'u'
    ensures FixChar(c, rd) == 'T'
  {
  }

  /** A character is left as it is exactly when it is an upper-case base; every
      other character is replaced, whatever the draw. */
  lemma FixCharUnchanged(c: char, rd: nat)
    ensures FixChar(c, rd) == c <==> IsBase(c)
  {
  }
}
