/** Character-level DNA helpers of Util.kt: the `complement` table, `String.revCompl`,
    `UtilString.reverse` and the middle-base canonical rule `UtilString.canonical`. */
module Dna {
  import opened Wrappers

  predicate IsBase(c: char) {
    c == 'A' || c == 'C' || c == 'G' || c == 'T'
  }

  predicate IsDna(s: string) {
    forall i :: 0 <= i < |s| ==> IsBase(s[i])
  }

  /** The `complement` map: None for a character it has no entry for (a Kotlin null). */
  function ComplementOf(c: char): (r: Option<char>)
    ensures r.Some? <==> IsBase(c)
    ensures r.Some? ==> IsBase(r.value) && r.value != c
  {
    match c
    case 'A' => Some('T')
    case 'C' => Some('G')
    case 'G' => Some('C')
    case 'T' => Some('A')
    case _ => None
  }

  /** Complementing twice gives the base back. */
  lemma ComplementInvolution(c: char)
    requires IsBase(c)
    ensures ComplementOf(ComplementOf(c).value) == Some(c)
  {
  }

  /** The complement of a base. */
  function Comp(c: char): char
    requires IsBase(c)
  {
    ComplementOf(c).value
  }

  /** How `joinToString` renders one looked-up complement: the base, or the text "null". */
  function ComplementText(c: char): (r: string)
    ensures IsBase(c) ==> r == [Comp(c)]
  {
    match ComplementOf(c)
    case Some(d) => [d]
    case None => "null"
  }

  /** `String.revCompl`: complement every character, then reverse the list. */
  function RevCompl(s: string): (r: string)
    ensures |r| >= |s|
  {
    if s == [] then [] else ComplementText(s[|s| - 1]) + RevCompl(s[..|s| - 1])
  }

  /** `UtilString.reverse`: reverse the characters, then complement each one. */
  function Reverse(s: string): string
  {
    if s == [] then [] else Reverse(s[1..]) + ComplementText(s[0])
  }

  /** `UtilString.canonical`: keep the k-mer (flag 0) when its middle base is A or C,
      otherwise take its reverse complement (flag 1). The source indexes the middle
      character, so the empty string is not a valid argument. */
  function Canonical(s: string): (string, Bit)
    requires |s| > 0
  {
    if s[|s| / 2] == 'A' || s[|s| / 2] == 'C' then (s, 0) else (RevCompl(s), 1)
  }

  /** A k-mer in the form `Canonical` keeps unchanged. */
  predicate IsCanonicalKmer(k: nat, s: string) {
    |s| == k && k > 0 && IsDna(s) && (s[k / 2] == 'A' || s[k / 2] == 'C')
  }

  // ---------------------------------------------------------------------------
  // Lemmas

  /** Reverse-complementing a concatenation swaps and reverse-complements the parts
      (for every string, including the "null" rendering of unknown characters). */
  lemma {:induction false} RevComplConcat(a: string, b: string)
    ensures RevCompl(a + b) == RevCompl(b) + RevCompl(a)
  {
    if b == [] {
      assert a + b == a;
    } else {
      var b' := b[..|b| - 1];
      assert (a + b)[..|a + b| - 1] == a + b';
      assert (a + b)[|a + b| - 1] == b[|b| - 1];
      RevComplConcat(a, b');
    }
  }

  /** `UtilString.reverse` and `String.revCompl` agree on every string. */
  lemma {:induction false} ReverseIsRevCompl(s: string)
    ensures Reverse(s) == RevCompl(s)
  {
    if s != [] {
      ReverseIsRevCompl(s[1..]);
      RevComplConcat([s[0]], s[1..]);
      assert [s[0]] + s[1..] == s;
      assert RevCompl([s[0]]) == ComplementText(s[0]) by {
        assert [s[0]][..0] == [];
      }
    }
  }

  /** On DNA, `revCompl` keeps the length, yields DNA, and position i holds the
      complement of position |s|-1-i. */
  lemma {:induction false} RevComplDna(s: string)
    requires IsDna(s)
    ensures |RevCompl(s)| == |s| && IsDna(RevCompl(s))
    ensures forall i :: 0 <= i < |s| ==> RevCompl(s)[i] == Comp(s[|s| - 1 - i])
  {
    if s != [] {
      var init := s[..|s| - 1];
      assert IsDna(init) by {
        forall i | 0 <= i < |init| ensures IsBase(init[i]) { assert init[i] == s[i]; }
      }
      RevComplDna(init);
      assert RevCompl(s) == [Comp(s[|s| - 1])] + RevCompl(init);
      forall i | 0 <= i < |s| ensures RevCompl(s)[i] == Comp(s[|s| - 1 - i]) {
        if i > 0 {
          assert RevCompl(s)[i] == RevCompl(init)[i - 1];
          assert init[|init| - 1 - (i - 1)] == s[|s| - 1 - i];
        }
      }
    }
  }

  /** On DNA, `revCompl` keeps the length. */
  lemma {:induction false} RevComplLength(s: string)
    requires IsDna(s)
    ensures |RevCompl(s)| == |s|
  {
    if s != [] {
      var init := s[..|s| - 1];
      assert IsDna(init) by {
        forall i | 0 <= i < |init| ensures IsBase(init[i]) { assert init[i] == s[i]; }
      }
      RevComplLength(init);
    }
  }

  /** `revCompl` is an involution on DNA strings. */
  lemma RevComplInvolution(s: string)
    requires IsDna(s)
    ensures RevCompl(RevCompl(s)) == s
  {
    RevComplDna(s);
    var r := RevCompl(s);
    RevComplDna(r);
    forall i | 0 <= i < |s| ensures RevCompl(r)[i] == s[i] {
      assert r[|s| - 1 - i] == Comp(s[i]);
    }
  }

  /** The canonical form of a DNA string is DNA of the same length. */
  lemma CanonicalDna(s: string)
    requires IsDna(s) && |s| > 0
    ensures |Canonical(s).0| == |s| && IsDna(Canonical(s).0)
  {
    RevComplDna(s);
  }

  /** For an odd-length DNA string the canonical form has A or C in the middle, is DNA of
      the same length, and a string and its reverse complement share their canonical form
      with opposite flags. */
  lemma CanonicalStrandSymmetric(s: string)
    requires IsDna(s) && |s| % 2 == 1
    ensures IsCanonicalKmer(|s|, Canonical(s).0)
    ensures Canonical(RevCompl(s)).0 == Canonical(s).0
    ensures Canonical(RevCompl(s)).1 == Xor1(Canonical(s).1)
  {
    RevComplDna(s);
    RevComplInvolution(s);
    var n := |s|;
    assert n - 1 - n / 2 == n / 2;
    var r := RevCompl(s);
    assert r[n / 2] == Comp(s[n / 2]);
  }

  /** A k-mer in canonical form is its own canonical form; its reverse complement maps back
      to it with flag 1. */
  lemma CanonicalOfCanonical(k: nat, s: string)
    requires IsCanonicalKmer(k, s) && k % 2 == 1
    ensures Canonical(s) == (s, 0)
    ensures Canonical(RevCompl(s)) == (s, 1)
  {
    CanonicalStrandSymmetric(s);
  }
}
